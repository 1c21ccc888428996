/**
 The NT object manager: a global pool of reference-counted objects and one handle table
 for each process.  The functions here describe each call; module `ObjectManager` performs them.
 */
module Objects {
  import opened Common

  const MAX_OBJECTS: nat := 1024
  const HANDLE_TABLE_SIZE: nat := 256
  const FREE_ENTRY: nat := 0xFFFF_FFFF
  const INVALID_HANDLE: nat := 0xFFFF_FFFF_FFFF_FFFF
  const MAX_REFS: nat := 0xFFFF_FFFF

  datatype ObjectType =
    | Directory | SymbolicLink | FileType | ProcessType | ThreadType | SectionType | MutantType | EventType
    | SemaphoreType | TimerType | KeyType | IoCompletion | Token | WindowStation | Desktop

  datatype Body =
    | NoBody
    | File(access: u32, position: u64, size: u64)
    | Mutant(ownerTid: u64, recursion: u32, signaled: bool)
    | Event(manualReset: bool, signaled: bool)
    | Key
    | Section(baseAddress: u64, size: u64)

  /** `name` is the stored part of the name; the NT create calls store an empty one, which is looked up like any. */
  datatype Header = Header(objectType: ObjectType, refCount: u32, name: seq<byte>, permanent: bool, body: Body)

  datatype HandleEntry = HandleEntry(index: nat, access: u32, inherit: bool, protect: bool) {
    predicate Free() { index == FREE_ENTRY }
  }

  const EMPTY_ENTRY: HandleEntry := HandleEntry(FREE_ENTRY, 0, false, false)

  datatype Status =
    | Success | InvalidHandle | NotClosable | NameNotFound | NameInvalid | TypeMismatch | InsufficientResources

  type Slots = seq<Option<Header>>
  type Table = seq<HandleEntry>

  datatype Pool = Pool(slots: Slots, count: int)

  // ---- The calls as functions ----

  /** The first empty slot at or after `i`, or the number of slots. */
  function FirstEmpty(slots: Slots, i: nat): nat
    requires i <= |slots|
  {
    FirstSuch(slots, (x: Option<Header>) => x.None?, i)
  }

  /** At most 127 bytes of a name are stored. */
  function StoredName(name: seq<byte>): seq<byte> {
    name[..Min(|name|, 127)]
  }

  function Create(p: Pool, objectType: ObjectType, name: seq<byte>, body: Body): (Pool, Option<nat>) {
    var i := FirstEmpty(p.slots, 0);
    if i == |p.slots| then (p, None)
    else (Pool(p.slots[i := Some(Header(objectType, 1, StoredName(name), false, body))], p.count + 1), Some(i))
  }

  /** The count is a 32-bit number and wraps. */
  function Reference(p: Pool, i: nat): (Pool, Status) {
    if i < |p.slots| && p.slots[i].Some? then
      var h := p.slots[i].value;
      (p.(slots := p.slots[i := Some(h.(refCount := (h.refCount + 1) % 0x1_0000_0000))]), Success)
    else (p, InvalidHandle)
  }

  function Dereference(p: Pool, i: nat): (Pool, Status) {
    if i < |p.slots| && p.slots[i].Some? && p.slots[i].value.refCount > 0 then
      var h := p.slots[i].value;
      if h.refCount == 1 && !h.permanent then (Pool(p.slots[i := None], p.count - 1), Success)
      else (p.(slots := p.slots[i := Some(h.(refCount := h.refCount - 1))]), Success)
    else (p, InvalidHandle)
  }

  /** The first object at or after `i` with exactly this stored name. */
  function Lookup(slots: Slots, name: seq<byte>, i: nat): (r: Option<nat>)
    requires i <= |slots|
    ensures r.Some? ==> i <= r.value < |slots| && slots[r.value].Some? && slots[r.value].value.name == name
    ensures forall j :: i <= j < (if r.Some? then r.value else |slots|) && slots[j].Some? ==>
      slots[j].value.name != name
    decreases |slots| - i
  {
    if i == |slots| then None
    else if slots[i].Some? && slots[i].value.name == name then Some(i)
    else Lookup(slots, name, i + 1)
  }

  /** The first free entry from `i` on, or the table size. */
  function FirstFreeEntry(t: Table, i: nat): nat
    requires i <= |t|
  {
    FirstSuch(t, (e: HandleEntry) => e.Free(), i)
  }

  /** Entry 0 is never handed out; a handle is its index times four. */
  function AllocEntry(t: Table, index: nat, access: u32): (Table, nat)
    requires |t| == HANDLE_TABLE_SIZE
  {
    var i := FirstFreeEntry(t, 1);
    if i == |t| then (t, INVALID_HANDLE) else (t[i := HandleEntry(index, access, false, false)], i * 4)
  }

  /** The entry a handle names; the two low bits are ignored. */
  function EntryOf(t: Table, handle: nat): Option<nat>
    requires |t| == HANDLE_TABLE_SIZE
  {
    var i := handle / 4;
    if i == 0 || i >= HANDLE_TABLE_SIZE || t[i].Free() then None else Some(i)
  }

  function CloseEntry(t: Table, handle: nat): (Table, Status)
    requires |t| == HANDLE_TABLE_SIZE
  {
    match EntryOf(t, handle)
    case None => (t, InvalidHandle)
    case Some(i) => if t[i].protect then (t, NotClosable) else (t[i := EMPTY_ENTRY], Success)
  }

  /** As the kernel has it: a second entry for the object, and no reference taken. */
  function Duplicate(t: Table, handle: nat, access: u32): (Table, nat)
    requires |t| == HANDLE_TABLE_SIZE
  {
    match EntryOf(t, handle)
    case None => (t, INVALID_HANDLE)
    case Some(i) => AllocEntry(t, t[i].index, access)
  }

  datatype Opened = Opened(pool: Pool, table: Table, status: Status, handle: nat)

  function Open(p: Pool, t: Table, name: seq<byte>, expected: ObjectType, access: u32): Opened
    requires |t| == HANDLE_TABLE_SIZE
  {
    match Lookup(p.slots, name, 0)
    case None => Opened(p, t, NameNotFound, 0)
    case Some(i) =>
      if p.slots[i].value.objectType != expected then Opened(p, t, TypeMismatch, 0)
      else
        var q := Reference(p, i).0;
        var (t2, handle) := AllocEntry(t, i, access);
        if handle == INVALID_HANDLE then Opened(Dereference(q, i).0, t, InsufficientResources, 0)
        else Opened(q, t2, Success, handle)
  }

  function Close(p: Pool, t: Table, handle: nat): (Pool, Table, Status)
    requires |t| == HANDLE_TABLE_SIZE
  {
    var (t2, status) := CloseEntry(t, handle);
    if status != Success then (p, t, status)
    else
      var (p2, s) := Dereference(p, t[handle / 4].index);
      (p2, t2, s)
  }

  /** The pattern of every `nt_create` call: create, take a handle, roll the object back when there is none. */
  function CreateWithHandle(p: Pool, t: Table, objectType: ObjectType, body: Body, access: u32): Opened
    requires |t| == HANDLE_TABLE_SIZE
  {
    var (q, index) := Create(p, objectType, [], body);
    if index.None? then Opened(p, t, InsufficientResources, 0)
    else
      var (t2, handle) := AllocEntry(t, index.value, access);
      if handle == INVALID_HANDLE then Opened(Dereference(q, index.value).0, t, InsufficientResources, 0)
      else Opened(q, t2, Success, handle)
  }

  // ---- What each call does ----

  /** A new object takes the lowest empty slot with the type, body and name prefix given and one reference. */
  lemma CreatedAsAsked(p: Pool, objectType: ObjectType, name: seq<byte>, body: Body)
    ensures var (q, index) := Create(p, objectType, name, body);
      && (index.None? <==> forall j :: 0 <= j < |p.slots| ==> p.slots[j].Some?)
      && (index.None? ==> q == p)
      && (index.Some? ==>
            var i := index.value;
            && i < |p.slots| == |q.slots| && p.slots[i].None? && (forall j :: 0 <= j < i ==> p.slots[j].Some?)
            && q.slots[i].Some? && q.count == p.count + 1
            && (forall j :: 0 <= j < |p.slots| && j != i ==> q.slots[j] == p.slots[j])
            && var h := q.slots[i].value;
              && h.objectType == objectType && h.body == body && h.refCount == 1 && !h.permanent
              && h.name <= name && |h.name| == Min(|name|, 127))
  {
  }

  /** A new entry is the lowest free one from 1 on, and its handle is four times its number. */
  lemma HandleGiven(t: Table, index: nat, access: u32)
    requires |t| == HANDLE_TABLE_SIZE && index < MAX_OBJECTS
    ensures var (t2, handle) := AllocEntry(t, index, access);
      if forall k :: 1 <= k < 256 ==> !t[k].Free() then handle == INVALID_HANDLE && t2 == t
      else
        var k := handle / 4;
        && handle == 4 * k && 1 <= k < 256 && t[k].Free() && (forall j :: 1 <= j < k ==> !t[j].Free())
        && |t2| == |t| && EntryOf(t2, handle) == Some(k)
        && t2[k].index == index && t2[k].access == access && !t2[k].inherit && !t2[k].protect
        && forall j :: 0 <= j < |t| && j != k ==> t2[j] == t[j]
  {
    var k := FirstFreeEntry(t, 1);
    assert k * 4 / 4 == k;
  }

  /**
   A create call that succeeds gives a handle that was free and now leads to a new object of the type
   and body asked for, with the access asked for; every other handle and object is as it was.
   */
  lemma CreatedHandleNamesObject(p: Pool, t: Table, objectType: ObjectType, body: Body, access: u32, other: nat)
    requires |t| == HANDLE_TABLE_SIZE && |p.slots| == MAX_OBJECTS
    requires CreateWithHandle(p, t, objectType, body, access).status == Success
    ensures var o := CreateWithHandle(p, t, objectType, body, access);
      && |o.table| == HANDLE_TABLE_SIZE && |o.pool.slots| == MAX_OBJECTS
      && EntryOf(t, o.handle).None? && EntryOf(o.table, o.handle).Some?
      && var e := o.table[EntryOf(o.table, o.handle).value];
        && e.access == access && !e.protect && e.index < MAX_OBJECTS
        && p.slots[e.index].None? && o.pool.slots[e.index].Some?
        && o.pool.slots[e.index].value.objectType == objectType
        && o.pool.slots[e.index].value.body == body
        && (forall j :: 0 <= j < MAX_OBJECTS && j != e.index ==> o.pool.slots[j] == p.slots[j])
        && (EntryOf(t, other).Some? ==>
              && EntryOf(o.table, other) == EntryOf(t, other)
              && o.table[EntryOf(t, other).value] == t[EntryOf(t, other).value])
  {
    CreatedAsAsked(p, objectType, [], body);
    HandleGiven(t, Create(p, objectType, [], body).1.value, access);
    hide Create, AllocEntry, FirstEmpty, FirstFreeEntry;
  }

  /** An object created under a new name that fits opens under that name and its type while the table has room. */
  lemma CreateThenOpen(p: Pool, t: Table, objectType: ObjectType, name: seq<byte>, body: Body, access: u32)
    requires |t| == HANDLE_TABLE_SIZE && |p.slots| == MAX_OBJECTS && |name| <= 127
    requires Lookup(p.slots, name, 0).None? && Create(p, objectType, name, body).1.Some?
    ensures var (q, i) := Create(p, objectType, name, body);
      var o := Open(q, t, name, objectType, access);
      && i.value < |q.slots|
      && (o.status == Success <==> exists k :: 1 <= k < 256 && t[k].Free())
      && (o.status == Success ==>
            && |o.table| == HANDLE_TABLE_SIZE && EntryOf(o.table, o.handle).Some?
            && o.table[EntryOf(o.table, o.handle).value].index == i.value)
      && forall other :: other != objectType ==> Open(q, t, name, other, access) == Opened(q, t, TypeMismatch, 0)
  {
    var (q, i) := Create(p, objectType, name, body);
    CreatedAsAsked(p, objectType, name, body);
    assert q.slots[i.value].value.name == name;
    assert forall j :: 0 <= j < |q.slots| && j != i.value && q.slots[j].Some? ==> q.slots[j].value.name != name;
    HandleGiven(t, i.value, access);
    hide Create, AllocEntry, FirstEmpty, FirstFreeEntry;
  }

  /** Which error `open_object` gives: no such name, another type, or a full table, in this order. */
  lemma OpenErrors(p: Pool, t: Table, name: seq<byte>, expected: ObjectType, access: u32)
    requires |t| == HANDLE_TABLE_SIZE
    ensures var status, found := Open(p, t, name, expected, access).status, Lookup(p.slots, name, 0);
      && (status == NameNotFound <==>
            forall j :: 0 <= j < |p.slots| && p.slots[j].Some? ==> p.slots[j].value.name != name)
      && (status == TypeMismatch <==> found.Some? && p.slots[found.value].value.objectType != expected)
      && (status == InsufficientResources <==>
            && found.Some? && p.slots[found.value].value.objectType == expected
            && forall k :: 1 <= k < 256 ==> !t[k].Free())
      && status in {Success, NameNotFound, TypeMismatch, InsufficientResources}
  {
    HandleGiven(t, 0, access);
    hide FirstFreeEntry;
  }

  /** The error of a close: a handle that names no used entry, or a protected one, which stay as they are. */
  lemma CloseErrors(p: Pool, t: Table, handle: nat)
    requires |t| == HANDLE_TABLE_SIZE
    ensures var (p2, t2, status), k := Close(p, t, handle), handle / 4;
      var used := 1 <= k < 256 && !t[k].Free();
      && (!used ==> status == InvalidHandle && p2 == p && t2 == t)
      && (used && t[k].protect ==> status == NotClosable && p2 == p && t2 == t)
      && (used && !t[k].protect ==>
            t2 == t[k := EMPTY_ENTRY] && t2[k].Free() && (p2, status) == Dereference(p, t[k].index))
  {
  }

  /** A duplicate is a handle of its own for the same object, with the access asked for; the source keeps its entry. */
  lemma DuplicateNamesObject(t: Table, handle: nat, access: u32)
    requires |t| == HANDLE_TABLE_SIZE && Duplicate(t, handle, access).1 != INVALID_HANDLE
    ensures var (t2, copy) := Duplicate(t, handle, access);
      && |t2| == HANDLE_TABLE_SIZE && EntryOf(t, handle).Some? && EntryOf(t, copy).None? && EntryOf(t2, copy).Some?
      && t2[EntryOf(t2, copy).value].index == t[EntryOf(t, handle).value].index
      && t2[EntryOf(t2, copy).value].access == access
      && EntryOf(t2, handle) == EntryOf(t, handle)
      && t2[EntryOf(t, handle).value] == t[EntryOf(t, handle).value]
  {
    var k := FirstFreeEntry(t, 1);
    assert k * 4 / 4 == k;
  }

  /** A reference counts one up, modulo 2^32, exactly when the slot is live. */
  lemma ReferenceCounts(p: Pool, i: nat)
    ensures var (q, status) := Reference(p, i);
      if i < |p.slots| && p.slots[i].Some? then
        && status == Success && |q.slots| == |p.slots| && q.slots[i].Some? && q.count == p.count
        && q.slots[i].value == p.slots[i].value.(refCount := q.slots[i].value.refCount)
        && (p.slots[i].value.refCount < 0xFFFF_FFFF ==>
              q.slots[i].value.refCount == p.slots[i].value.refCount + 1)
        && (p.slots[i].value.refCount == 0xFFFF_FFFF ==> q.slots[i].value.refCount == 0)
        && forall j :: 0 <= j < |p.slots| && j != i ==> q.slots[j] == p.slots[j]
      else status == InvalidHandle && q == p
  {
  }

  // ---- Counting ----

  /** Live objects among the first `n` slots. */
  function LiveBelow(slots: Slots, n: nat): nat
    requires n <= |slots|
  {
    if n == 0 then 0 else LiveBelow(slots, n - 1) + (if slots[n - 1].Some? then 1 else 0)
  }

  predicate Counted(p: Pool) {
    p.count == LiveBelow(p.slots, |p.slots|)
  }

  lemma {:induction false} LiveUpdate(slots: Slots, i: nat, x: Option<Header>, n: nat)
    requires i < |slots| && n <= |slots|
    ensures LiveBelow(slots[i := x], n) + (if i < n && slots[i].Some? then 1 else 0)
         == LiveBelow(slots, n) + (if i < n && x.Some? then 1 else 0)
  {
    if n != 0 {
      LiveUpdate(slots, i, x, n - 1);
    }
  }

  // ---- The system: one pool, any number of tables, and the references kernel code holds ----

  /** `kernel[i]` is the number of references to object `i` held outside the handle tables. */
  datatype System = System(pool: Pool, tables: seq<Table>, kernel: seq<nat>)

  /** The handle entries of one table that name object `i`, among the first `n`. */
  function Handles(t: Table, i: nat, n: nat): nat
    requires n <= |t|
  {
    if n == 0 then 0 else Handles(t, i, n - 1) + (if t[n - 1].index == i then 1 else 0)
  }

  function AllHandles(tables: seq<Table>, i: nat): nat {
    if |tables| == 0 then 0
    else AllHandles(tables[..|tables| - 1], i) + Handles(tables[|tables| - 1], i, |tables[|tables| - 1]|)
  }

  /** Reference conservation for object `i`; an empty slot is named by nothing. */
  predicate Conserved(s: System, i: nat)
    requires i < |s.pool.slots| && i < |s.kernel|
  {
    match s.pool.slots[i]
    case None => AllHandles(s.tables, i) + s.kernel[i] == 0
    case Some(h) =>
      && h.refCount == AllHandles(s.tables, i) + s.kernel[i]
      && (h.refCount > 0 || h.permanent)
  }

  predicate ProperTable(t: Table) {
    |t| == HANDLE_TABLE_SIZE && forall k :: 0 <= k < |t| ==> t[k].Free() || t[k].index < MAX_OBJECTS
  }

  ghost predicate Inv(s: System) {
    && |s.pool.slots| == |s.kernel| == MAX_OBJECTS
    && Counted(s.pool)
    && (forall p :: 0 <= p < |s.tables| ==> ProperTable(s.tables[p]))
    && (forall i :: 0 <= i < MAX_OBJECTS ==> Conserved(s, i))
  }

  lemma {:induction false} HandlesUpdate(t: Table, k: nat, e: HandleEntry, i: nat, n: nat)
    requires k < |t| && n <= |t|
    ensures Handles(t[k := e], i, n) + (if k < n && t[k].index == i then 1 else 0)
         == Handles(t, i, n) + (if k < n && e.index == i then 1 else 0)
  {
    if n != 0 {
      HandlesUpdate(t, k, e, i, n - 1);
    }
  }

  lemma {:induction false} AllHandlesUpdate(tables: seq<Table>, p: nat, t: Table, i: nat)
    requires p < |tables|
    ensures AllHandles(tables[p := t], i) + Handles(tables[p], i, |tables[p]|)
         == AllHandles(tables, i) + Handles(t, i, |t|)
  {
    var n := |tables| - 1;
    if p == n {
      assert tables[p := t][..n] == tables[..n];
    } else {
      assert tables[p := t][..n] == tables[..n][p := t];
      AllHandlesUpdate(tables[..n], p, t, i);
    }
  }

  /** Overwriting one entry moves one handle from the object it named to the one it names. */
  lemma EntryMoves(tables: seq<Table>, p: nat, k: nat, e: HandleEntry, i: nat)
    requires p < |tables| && k < |tables[p]|
    ensures AllHandles(tables[p := tables[p][k := e]], i) + (if tables[p][k].index == i then 1 else 0)
         == AllHandles(tables, i) + (if e.index == i then 1 else 0)
  {
    HandlesUpdate(tables[p], k, e, i, |tables[p]|);
    AllHandlesUpdate(tables, p, tables[p][k := e], i);
  }

  /** A used entry counts towards the object it names. */
  lemma {:induction false} EntryCounts(tables: seq<Table>, p: nat, k: nat)
    requires p < |tables| && k < |tables[p]|
    ensures AllHandles(tables, tables[p][k].index) > 0
  {
    EntryMoves(tables, p, k, EMPTY_ENTRY.(index := if tables[p][k].index == 0 then 1 else 0), tables[p][k].index);
  }

  /** No handle names an empty slot. */
  lemma HandlesNameLiveObjects(s: System, p: nat, k: nat)
    requires Inv(s) && p < |s.tables| && k < |s.tables[p]| && !s.tables[p][k].Free()
    ensures s.tables[p][k].index < MAX_OBJECTS && s.pool.slots[s.tables[p][k].index].Some?
    ensures s.pool.slots[s.tables[p][k].index].value.refCount > 0
  {
    assert ProperTable(s.tables[p]);
    EntryCounts(s.tables, p, k);
    assert Conserved(s, s.tables[p][k].index);
  }

  // ---- The moves every call is made of ----

  /** Moving a reference that kernel code holds into a free entry of table `p`. */
  function HandOver(s: System, p: nat, i: nat, access: u32): System
    requires Inv(s) && p < |s.tables| && i < MAX_OBJECTS && s.kernel[i] > 0
  {
    assert ProperTable(s.tables[p]);
    var (t, handle) := AllocEntry(s.tables[p], i, access);
    if handle == INVALID_HANDLE then s
    else s.(tables := s.tables[p := t], kernel := s.kernel[i := s.kernel[i] - 1])
  }

  lemma HandOverKeepsInv(s: System, p: nat, i: nat, access: u32)
    requires Inv(s) && p < |s.tables| && i < MAX_OBJECTS && s.kernel[i] > 0
    ensures Inv(HandOver(s, p, i, access))
  {
    assert ProperTable(s.tables[p]);
    var k := FirstFreeEntry(s.tables[p], 1);
    if k < |s.tables[p]| {
      var e := HandleEntry(i, access, false, false);
      var s2 := HandOver(s, p, i, access);
      assert s2.tables == s.tables[p := s.tables[p][k := e]];
      forall j | 0 <= j < MAX_OBJECTS ensures Conserved(s2, j) {
        assert Conserved(s, j);
        EntryMoves(s.tables, p, k, e, j);
      }
    }
  }

  /** Emptying a used entry: its reference is now held by the kernel call. */
  lemma TakeBackKeepsInv(s: System, p: nat, k: nat)
    requires Inv(s) && p < |s.tables| && k < |s.tables[p]| && !s.tables[p][k].Free()
    ensures var i := s.tables[p][k].index;
      && i < MAX_OBJECTS
      && Inv(s.(tables := s.tables[p := s.tables[p][k := EMPTY_ENTRY]], kernel := s.kernel[i := s.kernel[i] + 1]))
  {
    assert ProperTable(s.tables[p]);
    var i := s.tables[p][k].index;
    var s2 := s.(tables := s.tables[p := s.tables[p][k := EMPTY_ENTRY]], kernel := s.kernel[i := s.kernel[i] + 1]);
    forall j | 0 <= j < MAX_OBJECTS ensures Conserved(s2, j) {
      assert Conserved(s, j);
      EntryMoves(s.tables, p, k, EMPTY_ENTRY, j);
    }
  }

  lemma CreateKeepsInv(s: System, objectType: ObjectType, name: seq<byte>, body: Body)
    requires Inv(s)
    ensures var (q, index) := Create(s.pool, objectType, name, body);
      index.Some? ==>
        && index.value < MAX_OBJECTS
        && Inv(s.(pool := q, kernel := s.kernel[index.value := s.kernel[index.value] + 1]))
  {
    var (q, index) := Create(s.pool, objectType, name, body);
    if index.Some? {
      var i := index.value;
      LiveUpdate(s.pool.slots, i, q.slots[i], MAX_OBJECTS);
      var s2 := s.(pool := q, kernel := s.kernel[i := s.kernel[i] + 1]);
      forall j | 0 <= j < MAX_OBJECTS ensures Conserved(s2, j) {
        assert Conserved(s, j);
      }
    }
  }

  predicate HasRoom(p: Pool, i: nat) {
    i < |p.slots| && p.slots[i].Some? ==> p.slots[i].value.refCount < MAX_REFS
  }

  /** No live object is without references, unless it is permanent. */
  predicate Held(p: Pool, i: nat) {
    i < |p.slots| && p.slots[i].Some? ==> p.slots[i].value.refCount > 0 || p.slots[i].value.permanent
  }

  lemma ReferenceKeepsInv(s: System, i: nat)
    requires Inv(s) && HasRoom(s.pool, i)
    ensures var (q, status) := Reference(s.pool, i);
      && (status == Success <==> i < MAX_OBJECTS && s.pool.slots[i].Some?)
      && (status == Success ==> Inv(s.(pool := q, kernel := s.kernel[i := s.kernel[i] + 1])))
  {
    var (q, status) := Reference(s.pool, i);
    if status == Success {
      LiveUpdate(s.pool.slots, i, q.slots[i], MAX_OBJECTS);
      var s2 := s.(pool := q, kernel := s.kernel[i := s.kernel[i] + 1]);
      forall j | 0 <= j < MAX_OBJECTS ensures Conserved(s2, j) {
        assert Conserved(s, j);
      }
    }
  }

  lemma DereferenceKeepsInv(s: System, i: nat)
    requires Inv(s) && i < MAX_OBJECTS && s.kernel[i] > 0
    ensures Dereference(s.pool, i).1 == Success
    ensures Inv(s.(pool := Dereference(s.pool, i).0, kernel := s.kernel[i := s.kernel[i] - 1]))
  {
    assert Conserved(s, i);
    var q := Dereference(s.pool, i).0;
    LiveUpdate(s.pool.slots, i, q.slots[i], MAX_OBJECTS);
    var s2 := s.(pool := q, kernel := s.kernel[i := s.kernel[i] - 1]);
    forall j | 0 <= j < MAX_OBJECTS ensures Conserved(s2, j) {
      assert Conserved(s, j);
    }
  }

  // ---- Failed calls leave no trace ----

  lemma ReferenceThenDereference(p: Pool, i: nat)
    requires i < |p.slots| && p.slots[i].Some? && HasRoom(p, i)
    requires p.slots[i].value.refCount > 0 || p.slots[i].value.permanent
    ensures Dereference(Reference(p, i).0, i) == (p, Success)
  {
    var h, q := p.slots[i].value, Reference(p, i).0;
    assert h.(refCount := h.refCount + 1).(refCount := h.refCount) == h;
    assert Dereference(q, i).0.slots == p.slots;
  }

  lemma CreateThenDereference(p: Pool, objectType: ObjectType, name: seq<byte>, body: Body)
    requires Create(p, objectType, name, body).1.Some?
    ensures var (q, index) := Create(p, objectType, name, body);
      Dereference(q, index.value) == (p, Success)
  {
    var (q, index) := Create(p, objectType, name, body);
    assert Dereference(q, index.value).0.slots == p.slots;
  }

  /** `open_object` succeeds exactly when name, type and room in the table are right; else nothing changes. */
  lemma FailedOpenChangesNothing(p: Pool, t: Table, name: seq<byte>, expected: ObjectType, access: u32)
    requires |t| == HANDLE_TABLE_SIZE
    requires forall i :: 0 <= i < |p.slots| ==> HasRoom(p, i) && Held(p, i)
    ensures var o, found := Open(p, t, name, expected, access), Lookup(p.slots, name, 0);
      && (o.status == Success <==>
            found.Some? && p.slots[found.value].value.objectType == expected && FirstFreeEntry(t, 1) < |t|)
      && (o.status != Success ==> o.pool == p && o.table == t)
  {
    var found := Lookup(p.slots, name, 0);
    if found.Some? {
      ReferenceThenDereference(p, found.value);
    }
  }

  /** A handle just opened names the object found, with the access asked for; older handles keep their meaning. */
  lemma OpenedHandleNamesObject(p: Pool, t: Table, name: seq<byte>, expected: ObjectType, access: u32, other: nat)
    requires |t| == HANDLE_TABLE_SIZE && |p.slots| == MAX_OBJECTS
    requires Open(p, t, name, expected, access).status == Success
    ensures var o := Open(p, t, name, expected, access);
      && |o.table| == HANDLE_TABLE_SIZE
      && EntryOf(o.table, o.handle).Some?
      && o.table[EntryOf(o.table, o.handle).value] == HandleEntry(Lookup(p.slots, name, 0).value, access, false, false)
      && EntryOf(t, o.handle).None?
      && (EntryOf(t, other).Some? ==>
            && EntryOf(o.table, other) == EntryOf(t, other)
            && o.table[EntryOf(t, other).value] == t[EntryOf(t, other).value])
  {
    var k := FirstFreeEntry(t, 1);
    assert k * 4 / 4 == k && t[k].Free();
    var o := Open(p, t, name, expected, access);
    assert o.table == t[k := HandleEntry(Lookup(p.slots, name, 0).value, access, false, false)];
  }

  /** The same for the `nt_create` calls: they fail exactly when the pool or the table is full. */
  lemma FailedCreateChangesNothing(p: Pool, t: Table, objectType: ObjectType, body: Body, access: u32)
    requires |t| == HANDLE_TABLE_SIZE
    ensures var o := CreateWithHandle(p, t, objectType, body, access);
      && (o.status == Success <==> FirstEmpty(p.slots, 0) < |p.slots| && FirstFreeEntry(t, 1) < |t|)
      && (o.status != Success ==> o.status == InsufficientResources && o.pool == p && o.table == t)
  {
    if Create(p, objectType, [], body).1.Some? {
      CreateThenDereference(p, objectType, [], body);
    }
  }

  // ---- Runs ----

  datatype Op =
    | OpCreate(objectType: ObjectType, name: seq<byte>, body: Body)
    | OpReference(target: nat)
    | OpDereference(target: nat)
    | OpOpen(table: nat, name: seq<byte>, expected: ObjectType, access: u32)
    | OpClose(table: nat, handle: nat)
    | OpNtCreate(table: nat, objectType: ObjectType, body: Body, access: u32)
    | OpDuplicate(table: nat, handle: nat, access: u32)

  /** What callers owe: existing tables, releasing only references they hold, and fewer than 2^32 references. */
  ghost predicate Enabled(s: System, op: Op) {
    match op
    case OpCreate(_, _, _) => true
    case OpReference(i) => HasRoom(s.pool, i)
    case OpDereference(i) => i < |s.kernel| && i < |s.pool.slots| && s.pool.slots[i].Some? ==> s.kernel[i] > 0
    case OpOpen(p, name, _, _) => p < |s.tables| && forall i :: 0 <= i < |s.pool.slots| ==> HasRoom(s.pool, i)
    case OpClose(p, _) => p < |s.tables|
    case OpNtCreate(p, _, _, _) => p < |s.tables|
    case OpDuplicate(p, _, _) => p < |s.tables| && forall i :: 0 <= i < |s.pool.slots| ==> HasRoom(s.pool, i)
  }

  /** One call.  `OpDuplicate` is the repaired form of `duplicate`, which takes a reference for the new entry. */
  ghost function Step(s: System, op: Op): System
    requires Inv(s) && Enabled(s, op)
  {
    match op
    case OpCreate(objectType, name, body) =>
      var (q, index) := Create(s.pool, objectType, name, body);
      if index.None? then s else s.(pool := q, kernel := s.kernel[index.value := s.kernel[index.value] + 1])
    case OpReference(i) =>
      var (q, status) := Reference(s.pool, i);
      if status != Success then s else s.(pool := q, kernel := s.kernel[i := s.kernel[i] + 1])
    case OpDereference(i) =>
      var (q, status) := Dereference(s.pool, i);
      if status != Success then s else s.(pool := q, kernel := s.kernel[i := s.kernel[i] - 1])
    case OpOpen(p, name, expected, access) =>
      assert ProperTable(s.tables[p]);
      var o := Open(s.pool, s.tables[p], name, expected, access);
      s.(pool := o.pool, tables := s.tables[p := o.table])
    case OpClose(p, handle) =>
      assert ProperTable(s.tables[p]);
      var (q, t, status) := Close(s.pool, s.tables[p], handle);
      s.(pool := q, tables := s.tables[p := t])
    case OpNtCreate(p, objectType, body, access) =>
      assert ProperTable(s.tables[p]);
      var o := CreateWithHandle(s.pool, s.tables[p], objectType, body, access);
      s.(pool := o.pool, tables := s.tables[p := o.table])
    case OpDuplicate(p, handle, access) =>
      assert ProperTable(s.tables[p]);
      var (t, copy) := Duplicate(s.tables[p], handle, access);
      if copy == INVALID_HANDLE then s
      else s.(pool := Reference(s.pool, s.tables[p][handle / 4].index).0, tables := s.tables[p := t])
  }

  lemma OpenKeepsInv(s: System, op: Op)
    requires op.OpOpen? && Inv(s) && Enabled(s, op)
    ensures Inv(Step(s, op))
  {
    var p, found := op.table, Lookup(s.pool.slots, op.name, 0);
    assert ProperTable(s.tables[p]);
    if found.Some? && s.pool.slots[found.value].value.objectType == op.expected {
      var i := found.value;
      ReferenceKeepsInv(s, i);
      var s1 := s.(pool := Reference(s.pool, i).0, kernel := s.kernel[i := s.kernel[i] + 1]);
      if FirstFreeEntry(s.tables[p], 1) < |s.tables[p]| {
        HandOverKeepsInv(s1, p, i, op.access);
        assert s.kernel[i := s.kernel[i] + 1][i := s.kernel[i]] == s.kernel;
        assert Step(s, op) == HandOver(s1, p, i, op.access);
      } else {
        DereferenceKeepsInv(s1, i);
        assert s.kernel[i := s.kernel[i] + 1][i := s.kernel[i]] == s.kernel;
        assert s.tables[p := s.tables[p]] == s.tables;
      }
    } else {
      assert s.tables[p := s.tables[p]] == s.tables;
    }
  }

  lemma CloseKeepsInv(s: System, op: Op)
    requires op.OpClose? && Inv(s) && Enabled(s, op)
    ensures Inv(Step(s, op))
  {
    var p := op.table;
    assert ProperTable(s.tables[p]);
    var entry := EntryOf(s.tables[p], op.handle);
    if entry.Some? && !s.tables[p][entry.value].protect {
      var k := entry.value;
      var i := s.tables[p][k].index;
      TakeBackKeepsInv(s, p, k);
      var s1 := s.(tables := s.tables[p := s.tables[p][k := EMPTY_ENTRY]], kernel := s.kernel[i := s.kernel[i] + 1]);
      DereferenceKeepsInv(s1, i);
      assert s.kernel[i := s.kernel[i] + 1][i := s.kernel[i]] == s.kernel;
    } else {
      assert s.tables[p := s.tables[p]] == s.tables;
    }
  }

  lemma NtCreateKeepsInv(s: System, op: Op)
    requires op.OpNtCreate? && Inv(s) && Enabled(s, op)
    ensures Inv(Step(s, op))
  {
    var p := op.table;
    assert ProperTable(s.tables[p]);
    FailedCreateChangesNothing(s.pool, s.tables[p], op.objectType, op.body, op.access);
    var (q, index) := Create(s.pool, op.objectType, [], op.body);
    if index.Some? && FirstFreeEntry(s.tables[p], 1) < |s.tables[p]| {
      var i := index.value;
      CreateKeepsInv(s, op.objectType, [], op.body);
      var s1 := s.(pool := q, kernel := s.kernel[i := s.kernel[i] + 1]);
      HandOverKeepsInv(s1, p, i, op.access);
      assert s.kernel[i := s.kernel[i] + 1][i := s.kernel[i]] == s.kernel;
      assert Step(s, op) == HandOver(s1, p, i, op.access);
    } else {
      assert s.tables[p := s.tables[p]] == s.tables;
    }
  }

  lemma DuplicateKeepsInv(s: System, op: Op)
    requires op.OpDuplicate? && Inv(s) && Enabled(s, op)
    ensures Inv(Step(s, op))
  {
    var p := op.table;
    assert ProperTable(s.tables[p]);
    var entry := EntryOf(s.tables[p], op.handle);
    if entry.Some? && FirstFreeEntry(s.tables[p], 1) < |s.tables[p]| {
      var i := s.tables[p][entry.value].index;
      HandlesNameLiveObjects(s, p, entry.value);
      ReferenceKeepsInv(s, i);
      var s1 := s.(pool := Reference(s.pool, i).0, kernel := s.kernel[i := s.kernel[i] + 1]);
      HandOverKeepsInv(s1, p, i, op.access);
      assert s.kernel[i := s.kernel[i] + 1][i := s.kernel[i]] == s.kernel;
      assert Step(s, op) == HandOver(s1, p, i, op.access);
    }
  }

  /** Every call keeps the reference counts equal to the handles and kernel references there are. */
  lemma StepKeepsInv(s: System, op: Op)
    requires Inv(s) && Enabled(s, op)
    ensures Inv(Step(s, op))
  {
    match op
    case OpCreate(objectType, name, body) => CreateKeepsInv(s, objectType, name, body);
    case OpReference(i) => ReferenceKeepsInv(s, i);
    case OpDereference(i) =>
      if Dereference(s.pool, i).1 == Success {
        DereferenceKeepsInv(s, i);
      }
    case OpOpen(_, _, _, _) => OpenKeepsInv(s, op);
    case OpClose(_, _) => CloseKeepsInv(s, op);
    case OpNtCreate(_, _, _, _) => NtCreateKeepsInv(s, op);
    case OpDuplicate(_, _, _) => DuplicateKeepsInv(s, op);
  }

  /** `ops` can be called one after the other from `s`. */
  ghost predicate Runs(s: System, ops: seq<Op>)
    requires Inv(s)
    decreases |ops|
  {
    |ops| > 0 ==> Enabled(s, ops[0]) && (StepKeepsInv(s, ops[0]); Runs(Step(s, ops[0]), ops[1..]))
  }

  ghost function Run(s: System, ops: seq<Op>): System
    requires Inv(s) && Runs(s, ops)
    decreases |ops|
  {
    if |ops| == 0 then s else (StepKeepsInv(s, ops[0]); Run(Step(s, ops[0]), ops[1..]))
  }

  /** Conservation over every run of calls on any number of handle tables. */
  lemma {:induction false} RunKeepsInv(s: System, ops: seq<Op>)
    requires Inv(s) && Runs(s, ops)
    ensures Inv(Run(s, ops))
    decreases |ops|
  {
    if |ops| != 0 {
      StepKeepsInv(s, ops[0]);
      RunKeepsInv(Step(s, ops[0]), ops[1..]);
    }
  }

  /**
   A new object is found again under the name it was created with exactly when the name fits the
   127 stored bytes and no object before it carries it.
   */
  lemma CreateThenLookup(p: Pool, objectType: ObjectType, name: seq<byte>, body: Body)
    requires Create(p, objectType, name, body).1.Some?
    ensures var (q, index) := Create(p, objectType, name, body);
      Lookup(q.slots, name, 0) == index <==>
        |name| <= 127 && forall j :: 0 <= j < index.value ==> p.slots[j].value.name != name
  {
    var i := FirstEmpty(p.slots, 0);
    var q := p.slots[i := Some(Header(objectType, 1, StoredName(name), false, body))];
    NameStoredWhole(name);
    FirstWithName(q, name, i);
    assert Create(p, objectType, name, body).0.slots == q;
    forall j | 0 <= j < i ensures q[j] == p.slots[j] {
    }
  }

  lemma NameStoredWhole(name: seq<byte>)
    ensures StoredName(name) == name <==> |name| <= 127
  {
    if |name| <= 127 {
      assert name[..|name|] == name;
    }
  }

  /** Which slot a lookup finds, given one live slot. */
  lemma FirstWithName(slots: Slots, name: seq<byte>, i: nat)
    requires i < |slots| && slots[i].Some?
    requires forall j :: 0 <= j < i ==> slots[j].Some?
    ensures Lookup(slots, name, 0) == Some(i) <==>
      slots[i].value.name == name && forall j :: 0 <= j < i ==> slots[j].value.name != name
  {
  }

  /** A handle opened and then closed leaves pool and table as they were, whatever else was open. */
  lemma OpenThenClose(p: Pool, t: Table, name: seq<byte>, expected: ObjectType, access: u32)
    requires |t| == HANDLE_TABLE_SIZE
    requires forall i :: 0 <= i < |p.slots| ==> HasRoom(p, i) && Held(p, i)
    requires forall k :: 0 <= k < |t| && t[k].Free() ==> t[k] == EMPTY_ENTRY
    requires |p.slots| == MAX_OBJECTS
    requires Open(p, t, name, expected, access).status == Success
    ensures var o := Open(p, t, name, expected, access);
      |o.table| == HANDLE_TABLE_SIZE && Close(o.pool, o.table, o.handle) == (p, t, Success)
  {
    var i, k := Lookup(p.slots, name, 0).value, FirstFreeEntry(t, 1);
    ReferenceThenDereference(p, i);
    assert t[k := HandleEntry(i, access, false, false)][k := EMPTY_ENTRY] == t;
  }

  /** Boot: an empty pool and `n` empty tables. */
  function Booted(n: nat): System {
    System(
      Pool(seq(MAX_OBJECTS, i => None), 0), seq(n, p => seq(HANDLE_TABLE_SIZE, k => EMPTY_ENTRY)),
      seq(MAX_OBJECTS, i => 0))
  }

  lemma BootedInv(n: nat)
    ensures Inv(Booted(n))
  {
    var s := Booted(n);
    forall i | 0 <= i < MAX_OBJECTS ensures Conserved(s, i) {
      NoHandles(s.tables, i);
    }
    NoneLive(s.pool.slots, MAX_OBJECTS);
  }

  lemma {:induction false} NoneLive(slots: Slots, n: nat)
    requires n <= |slots| && forall j :: 0 <= j < |slots| ==> slots[j].None?
    ensures LiveBelow(slots, n) == 0
  {
    if n != 0 {
      NoneLive(slots, n - 1);
    }
  }

  lemma {:induction false} NoHandles(tables: seq<Table>, i: nat)
    requires i < MAX_OBJECTS
    requires forall p :: 0 <= p < |tables| ==> forall k :: 0 <= k < |tables[p]| ==> tables[p][k].Free()
    ensures AllHandles(tables, i) == 0
  {
    if |tables| != 0 {
      NoHandles(tables[..|tables| - 1], i);
      NoHandlesInTable(tables[|tables| - 1], i, |tables[|tables| - 1]|);
    }
  }

  lemma {:induction false} NoHandlesInTable(t: Table, i: nat, n: nat)
    requires i < MAX_OBJECTS && n <= |t| && forall k :: 0 <= k < |t| ==> t[k].Free()
    ensures Handles(t, i, n) == 0
  {
    if n != 0 {
      NoHandlesInTable(t, i, n - 1);
    }
  }

  /** `duplicate` as the kernel has it keeps the conservation exactly when it fails. */
  lemma BareDuplicate(s: System, p: nat, handle: nat, access: u32)
    requires Inv(s) && p < |s.tables|
    ensures |s.tables[p]| == HANDLE_TABLE_SIZE
    ensures var (t, copy) := Duplicate(s.tables[p], handle, access);
      Inv(s.(tables := s.tables[p := t])) <==> copy == INVALID_HANDLE
    ensures Duplicate(s.tables[p], handle, access).1 == INVALID_HANDLE <==>
      EntryOf(s.tables[p], handle).None? || FirstFreeEntry(s.tables[p], 1) == |s.tables[p]|
  {
    assert ProperTable(s.tables[p]);
    var (t, copy) := Duplicate(s.tables[p], handle, access);
    if copy == INVALID_HANDLE {
      assert s.tables[p := t] == s.tables;
    } else {
      var k, i := FirstFreeEntry(s.tables[p], 1), s.tables[p][handle / 4].index;
      HandlesNameLiveObjects(s, p, handle / 4);
      EntryMoves(s.tables, p, k, HandleEntry(i, access, false, false), i);
      assert Conserved(s, i);
      assert !Conserved(s.(tables := s.tables[p := t]), i);
    }
  }

  /**
   From boot: an event is created with a handle, the handle is duplicated, and the original is closed.
   The event is gone, and the copy names an empty slot.
   */
  lemma DanglingCopyIsReached(n: nat, access: u32)
    requires n > 0
    ensures Inv(Booted(n)) && Enabled(Booted(n), OpNtCreate(0, EventType, Event(false, false), access))
    ensures var s := Step(Booted(n), OpNtCreate(0, EventType, Event(false, false), access));
      && Inv(s) && |s.tables| == n && |s.tables[0]| == HANDLE_TABLE_SIZE
      && EntryOf(s.tables[0], 4) == Some(1)
      && var (t, copy) := Duplicate(s.tables[0], 4, access);
        && copy == 8 && |t| == HANDLE_TABLE_SIZE && !Inv(s.(tables := s.tables[0 := t]))
        && var (pool, t2, status) := Close(s.pool, t, 4);
          && status == Success && |t2| == HANDLE_TABLE_SIZE
          && EntryOf(t2, copy) == Some(2) && t2[2].index == 0 && pool.slots[0].None?
  {
    var b := Booted(n);
    BootedInv(n);
    NtCreateKeepsInv(b, OpNtCreate(0, EventType, Event(false, false), access));
    var s := Step(b, OpNtCreate(0, EventType, Event(false, false), access));
    assert FirstEmpty(b.pool.slots, 0) == 0 && FirstFreeEntry(b.tables[0], 1) == 1;
    var t1 := s.tables[0];
    assert t1 == b.tables[0][1 := HandleEntry(0, access, false, false)];
    assert FirstFreeEntry(t1, 2) == 2 && FirstFreeEntry(t1, 1) == 2;
    BareDuplicate(s, 0, 4, access);
  }
}
