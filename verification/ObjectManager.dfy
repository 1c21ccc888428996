/**
 The object manager as the kernel runs it: the global pool and the handle tables are updated
 in place, and every method is proved equal to the call that module `Objects` describes.
 */
module ObjectManager {
  import opened Common
  import opened Objects

  class ObjectPool {
    const objects: array<Option<Header>>
    var count: int

    ghost predicate Valid() {
      objects.Length == MAX_OBJECTS
    }

    ghost function Value(): Pool
      reads this, objects
    {
      Pool(objects[..], count)
    }

    constructor ()
      ensures Valid() && fresh(objects)
      ensures Value() == Booted(0).pool
    {
      objects := new Option<Header>[MAX_OBJECTS](i => None);
      count := 0;
    }

    method CreateObject(objectType: ObjectType, name: seq<byte>, body: Body) returns (index: Option<nat>)
      requires Valid()
      modifies this`count, objects
      ensures Create(old(Value()), objectType, name, body) == (Value(), index)
    {
      var i := 0;
      while i < MAX_OBJECTS
        invariant i <= MAX_OBJECTS
        invariant Value() == old(Value())
        invariant forall j :: 0 <= j < i ==> objects[..][j].Some?
      {
        if objects[i].None? {
          var len := Min(|name|, 127);
          objects[i] := Some(Header(objectType, 1, name[..len], false, body));
          count := count + 1;
          return Some(i);
        }
        i := i + 1;
      }
      return None;
    }

    method ReferenceObject(index: nat) returns (status: Status)
      requires Valid()
      modifies objects
      ensures Reference(old(Value()), index) == (Value(), status)
    {
      if index < objects.Length {
        match objects[index] {
          case Some(header) =>
            objects[index] := Some(header.(refCount := (header.refCount + 1) % 0x1_0000_0000));
            return Success;
          case None =>
        }
      }
      return InvalidHandle;
    }

    method DereferenceObject(index: nat) returns (status: Status)
      requires Valid()
      modifies this`count, objects
      ensures Dereference(old(Value()), index) == (Value(), status)
    {
      if index >= objects.Length {
        return InvalidHandle;
      }
      match objects[index] {
        case None =>
          return InvalidHandle;
        case Some(header) =>
          if header.refCount == 0 {
            return InvalidHandle;
          }
          var left := header.refCount - 1;
          if left == 0 && !header.permanent {
            objects[index] := None;
            count := count - 1;
          } else {
            objects[index] := Some(header.(refCount := left));
          }
          return Success;
      }
    }

    /** The lowest object of this name, found exactly when there is one. */
    method LookupObject(name: seq<byte>) returns (index: Option<nat>)
      requires Valid()
      ensures index == Lookup(Value().slots, name, 0)
    {
      var i := 0;
      while i < MAX_OBJECTS
        invariant i <= MAX_OBJECTS
        invariant Lookup(objects[..], name, 0) == Lookup(objects[..], name, i)
      {
        if objects[i].Some? && objects[i].value.name == name {
          return Some(i);
        }
        i := i + 1;
      }
      return None;
    }

    method GetObjectType(index: nat) returns (objectType: Option<ObjectType>)
      requires Valid()
      ensures objectType.Some? <==> index < MAX_OBJECTS && Value().slots[index].Some?
      ensures objectType.Some? ==> objectType.value == Value().slots[index].value.objectType
    {
      if index < objects.Length && objects[index].Some? {
        return Some(objects[index].value.objectType);
      }
      return None;
    }
  }

  class HandleTable {
    const entries: array<HandleEntry>

    ghost predicate Valid() {
      entries.Length == HANDLE_TABLE_SIZE
    }

    ghost function Value(): (t: Table)
      requires Valid()
      reads entries
      ensures |t| == HANDLE_TABLE_SIZE
    {
      entries[..]
    }

    constructor ()
      ensures Valid() && fresh(entries)
      ensures Value() == Booted(1).tables[0]
    {
      entries := new HandleEntry[HANDLE_TABLE_SIZE](k => EMPTY_ENTRY);
    }

    method Alloc(index: nat, access: u32) returns (handle: nat)
      requires Valid()
      modifies entries
      ensures AllocEntry(old(Value()), index, access) == (Value(), handle)
    {
      var i := 1;
      while i < HANDLE_TABLE_SIZE
        invariant 1 <= i <= HANDLE_TABLE_SIZE
        invariant Value() == old(Value())
        invariant forall j :: 1 <= j < i ==> !entries[..][j].Free()
      {
        if entries[i].Free() {
          entries[i] := HandleEntry(index, access, false, false);
          return i * 4;
        }
        i := i + 1;
      }
      return INVALID_HANDLE;
    }

    method Get(handle: nat) returns (entry: Option<HandleEntry>)
      requires Valid()
      ensures entry.Some? <==> EntryOf(Value(), handle).Some?
      ensures entry.Some? ==> entry.value == Value()[EntryOf(Value(), handle).value]
    {
      var index := handle / 4;
      if index == 0 || index >= HANDLE_TABLE_SIZE || entries[index].Free() {
        return None;
      }
      return Some(entries[index]);
    }

    method Close(handle: nat) returns (status: Status)
      requires Valid()
      modifies entries
      ensures CloseEntry(old(Value()), handle) == (Value(), status)
    {
      var index := handle / 4;
      if index == 0 || index >= HANDLE_TABLE_SIZE || entries[index].Free() {
        return InvalidHandle;
      }
      if entries[index].protect {
        return NotClosable;
      }
      entries[index] := EMPTY_ENTRY;
      return Success;
    }

    method DuplicateHandle(source: nat, access: u32) returns (handle: nat)
      requires Valid()
      modifies entries
      ensures Duplicate(old(Value()), source, access) == (Value(), handle)
    {
      var index := source / 4;
      if index == 0 || index >= HANDLE_TABLE_SIZE || entries[index].Free() {
        return INVALID_HANDLE;
      }
      handle := Alloc(entries[index].index, access);
    }
  }

  method OpenObject(pool: ObjectPool, table: HandleTable, name: seq<byte>, expected: ObjectType, access: u32)
    returns (status: Status, handle: nat)
    requires pool.Valid() && table.Valid()
    modifies pool`count, pool.objects, table.entries
    ensures Opened(pool.Value(), table.Value(), status, handle)
         == Open(old(pool.Value()), old(table.Value()), name, expected, access)
  {
    var found := pool.LookupObject(name);
    if found.None? {
      return NameNotFound, 0;
    }
    var index := found.value;
    var objectType := pool.GetObjectType(index);
    if objectType.value != expected {
      return TypeMismatch, 0;
    }
    status := pool.ReferenceObject(index);
    handle := table.Alloc(index, access);
    if handle == INVALID_HANDLE {
      var ignored := pool.DereferenceObject(index);
      return InsufficientResources, 0;
    }
  }

  /** `nt_close` is this call. */
  method CloseHandle(pool: ObjectPool, table: HandleTable, handle: nat) returns (status: Status)
    requires pool.Valid() && table.Valid()
    modifies pool`count, pool.objects, table.entries
    ensures Close(old(pool.Value()), old(table.Value()), handle) == (pool.Value(), table.Value(), status)
  {
    var entry := table.Get(handle);
    if entry.None? {
      return InvalidHandle;
    }
    status := table.Close(handle);
    if status != Success {
      return;
    }
    status := pool.DereferenceObject(entry.value.index);
  }

  /** The body the `nt_create` calls share: an anonymous object, a handle, and the rollback. */
  method CreateAnonymous(pool: ObjectPool, table: HandleTable, objectType: ObjectType, body: Body, access: u32)
    returns (status: Status, handle: nat)
    requires pool.Valid() && table.Valid()
    modifies pool`count, pool.objects, table.entries
    ensures Opened(pool.Value(), table.Value(), status, handle)
         == CreateWithHandle(old(pool.Value()), old(table.Value()), objectType, body, access)
  {
    var index := pool.CreateObject(objectType, [], body);
    if index.None? {
      return InsufficientResources, 0;
    }
    handle := table.Alloc(index.value, access);
    if handle == INVALID_HANDLE {
      var ignored := pool.DereferenceObject(index.value);
      return InsufficientResources, 0;
    }
    status := Success;
  }

  /** What the caller passes in for the outcome. */
  datatype IoStatusBlock = IoStatusBlock(status: Status, information: nat)

  /**
   The handle made here is dropped: the caller learns the status only, which the block repeats.
   `information` is written on success alone.
   */
  method NtCreateFile(pool: ObjectPool, table: HandleTable, access: u32, nameIsNull: bool, io: IoStatusBlock)
    returns (status: Status, io2: IoStatusBlock)
    requires pool.Valid() && table.Valid()
    modifies pool`count, pool.objects, table.entries
    ensures nameIsNull ==>
      status == NameInvalid && pool.Value() == old(pool.Value()) && table.Value() == old(table.Value())
    ensures !nameIsNull ==>
      var o := CreateWithHandle(old(pool.Value()), old(table.Value()), FileType, File(access, 0, 0), access);
      status == o.status && pool.Value() == o.pool && table.Value() == o.table
    ensures io2 == IoStatusBlock(status, if status == Success then 0 else io.information)
  {
    if nameIsNull {
      return NameInvalid, io.(status := NameInvalid);
    }
    var handle;
    status, handle := CreateAnonymous(pool, table, FileType, File(access, 0, 0), access);
    io2 := if status == Success then IoStatusBlock(status, 0) else io.(status := status);
  }

  method NtCreateEvent(pool: ObjectPool, table: HandleTable, access: u32, manualReset: bool, initialState: bool)
    returns (status: Status, handle: nat)
    requires pool.Valid() && table.Valid()
    modifies pool`count, pool.objects, table.entries
    ensures Opened(pool.Value(), table.Value(), status, handle) == CreateWithHandle(
      old(pool.Value()), old(table.Value()), EventType, Event(manualReset, initialState), access)
  {
    status, handle := CreateAnonymous(pool, table, EventType, Event(manualReset, initialState), access);
  }

  method NtCreateMutant(pool: ObjectPool, table: HandleTable, access: u32, initialOwner: bool)
    returns (status: Status, handle: nat)
    requires pool.Valid() && table.Valid()
    modifies pool`count, pool.objects, table.entries
    ensures Opened(pool.Value(), table.Value(), status, handle) == CreateWithHandle(
      old(pool.Value()), old(table.Value()), MutantType,
      if initialOwner then Mutant(1, 1, false) else Mutant(0, 0, true), access)
  {
    var body := if initialOwner then Mutant(1, 1, false) else Mutant(0, 0, true);
    status, handle := CreateAnonymous(pool, table, MutantType, body, access);
  }

  method NtOpenKey(pool: ObjectPool, table: HandleTable, access: u32) returns (status: Status, handle: nat)
    requires pool.Valid() && table.Valid()
    modifies pool`count, pool.objects, table.entries
    ensures Opened(pool.Value(), table.Value(), status, handle)
         == CreateWithHandle(old(pool.Value()), old(table.Value()), KeyType, Key, access)
  {
    status, handle := CreateAnonymous(pool, table, KeyType, Key, access);
  }

  method NtCreateSection(pool: ObjectPool, table: HandleTable, access: u32, maximumSize: u64)
    returns (status: Status, handle: nat)
    requires pool.Valid() && table.Valid()
    modifies pool`count, pool.objects, table.entries
    ensures Opened(pool.Value(), table.Value(), status, handle)
         == CreateWithHandle(old(pool.Value()), old(table.Value()), SectionType, Section(0, maximumSize), access)
  {
    status, handle := CreateAnonymous(pool, table, SectionType, Section(0, maximumSize), access);
  }
}
