# NoNameOS kernel: a Dafny model and its proofs

This project models the memory and state management of the NoNameOS kernel and proves what its
parts promise. Code that changes tables in place is modelled by classes whose methods are
proved equal to functions on values; the laws are proved about those functions, over single calls
and over whole runs.

| module | models |
|---|---|
| Phys | the bitmap frame allocator, first fit, and runs of allocations and releases |
| Bytes, PageTables, Paging | physical memory as bytes, the four-level walk, map and unmap |
| UserSpace, Isolation, BootTables | address spaces, mapping of data, isolation over runs, the tables of the boot code |
| Pe, Loader | header validation, the loader, RVA answers, the import walk |
| Objects, ObjectManager | the NT object pool and handle tables |
| Context, KernelStacks | `switch_to` as an abstract stack machine, kernel stacks from the frame allocator |
| Scheduling, Sleeping, Fairness, ThreadTable | selection, ticks, sleep, block, exit; when waits end; who gets the processor |
| Paths, Ramfs, Vfs | path resolution, creation, file contents, descriptors |
| Kmalloc | kmalloc and kfree with their side table |
| Drivers, Ipc, Diagnostics, Multiboot | binding, message rings, boot diagnostics, tag walk |

## How the memory model works

Memory is one array of bytes and a table is one frame of it. A map from frames to slots records for each
table frame where it is linked from; the shape invariant says that every link leads to the table
recorded for it, one level down. That makes two walks that meet agree on the indices above,
so one entry write moves one translation. The upper halves of all roots link the tables of
the kernel root, as `create_address_space` copies them. Frames of user pages are recorded with the
page they back.

## Where the code differs from its stated intent

- `alloc_dentry` and `alloc_superblock` (kernel/src/vfs/mod.rs:329-338, 400-409) do not activate the slot they return, and the getters that follow refuse inactive slots. As written `init` stops the kernel (`Ramfs.MountPanics`), and `create` fails in every state (`Ramfs.AsWrittenNothingIsCreated`); from the tables at boot it changes nothing (`Ramfs.AsWrittenFromBoot`). The directory laws hold for the repaired form; the flag `activates` says whether the two allocators mark the slot.
- `recovery_vfs` (kernel/src/ktest.rs:840-844) mounts a second time; on a mounted tree that adds a second root no path leads to: `Ramfs.RemountIsInvisible`.
- `schedule` (kernel/src/scheduler.rs:333-341) lets the current thread keep the processor on a tie, so equal priorities get no equal quanta (header lines 7-9): a team shares the processor if and only if it has one member, `Fairness.SharesIffAlone`, reached from boot in `Fairness.FirstOfTwoNeverRuns`. A strict comparison repairs it: `Fairness.EveryoneRunsWithinTeamSize`.
- `HandleTable::duplicate` (kernel/src/win32/object.rs:339-349) takes no reference; it keeps the counts right exactly when it fails: `Objects.BareDuplicate`, with the dangling copy reached in `Objects.DanglingCopyIsReached`. The run theorem pairs it with a reference.
- `phys::init` (kernel/src/memory/phys.rs:103-137) does not clear the bitmap, and `recovery_memory` (kernel/src/ktest.rs:820-833) calls it again: `Phys.FrameAllocator.Init` gives the exact error of the counter for any earlier content, and says when the allocator is consistent; the error stays (`Phys.ExcessStays`).
- `alloc_kernel_stack` and `kmalloc` keep only the first frame address; they are right exactly when the lowest free frames are consecutive: `Phys.TakeIsRange`, `KernelStacks.StackIsOwn`, `Kmalloc.MallocThenFree`, `Kmalloc.ZeroFillSparesOthersIff`; failing cases are reached in `KernelStacks.OverlapIsReached` and `Kmalloc.SmallGapIsReached`. A full allocation table makes `kfree` give back one page only. A failed or unplaced spawn loses its stack frames.
- `exit_current`, `block_current` and `sleep_ticks` return to their caller when no other thread is ready (kernel/src/scheduler.rs:344-355): `Scheduling.StopSwitchesIff`. The boot thread reaches this when it exits as the user thread (kernel/src/lib.rs:377-402, kernel/src/syscall.rs:378-382). An exit is final if and only if another thread was ready; otherwise the dead thread goes on, and sleeping or blocking revives it: `Scheduling.ExitIsFinalIff`, `Scheduling.ExitReturnsAtBoot`.
- `unblock_thread` (kernel/src/scheduler.rs:405-415) leaves the sleep deadline, so a wait is not always ended by `unblock_thread`, nor a sleep by its deadline. Ticks alone end a wait if and only if the deadline of the slot is not 0: `Sleeping.WaitEndsIffDeadlineSet`, and for the two calls `Sleeping.BlockEndsIffDeadlineLeft`, `Sleeping.SleepEndsIffDeadlineSet`. The stale case is reached from boot in `Sleeping.StaleDeadlineIsReached`; `sleep_ticks(0)` at tick 0 blocks for ever.
- `recovery_scheduler` (kernel/src/ktest.rs:851-854) calls `init` again, which replaces slot 0 only: the other threads are not lost, but one that was running without being in slot 0 is never chosen again (`Scheduling.ReinitKeepsInvIff`, `Scheduling.LeftRunningIsStranded`).
- `create_address_space` (kernel/src/userspace.rs:74-95) copies the upper half to keep the kernel reachable, but the boot code maps the kernel in the lower half: `BootTables.NewSpaceKeepsAllIff`, `BootTables.NewSpaceLosesKernel`.
- `map_page` (kernel/src/memory/paging.rs:147-185) takes a large page for a table; the page keeps its large mapping and loses eight bytes: `PageTables.LargePageStays`.
- `spawn_kernel_thread_with_priority` (kernel/src/scheduler.rs:216-224) gives every thread process id 0, while the kernel process of `init` has id 1.
- `register_endpoint` (kernel/src/ipc.rs:235-253) keeps the queue of the previous owner: `Ipc.NewOwnerReceivesOldMessages`, reached in `Ipc.OldMessageIsReached`.
- `load_pe` (kernel/src/loader.rs:171) admits sections up to 4 MiB, but one above 256 pages is then refused as out of memory: `Loader.VerdictOn` says which error comes out. An import name whose offset lies past the end of the file stops the kernel.
- `nt_create_file` (kernel/src/win32/ntapi.rs:105-160) drops the handle it made.
- The repository's README speaks of 19 boot tests; the table in kernel/src/ktest.rs has 18.

## Model

| member | source | states |
|---|---|---|
| Phys.SetBitSeen | kernel/src/memory/phys.rs:53-59 | setting a bit of the byte array changes the bit of that frame and of no other |
| Phys.ClearBitSeen | kernel/src/memory/phys.rs:62-68 | clearing a bit changes the bit of that frame and of no other |
| Phys.FrameAllocator.SetBit | kernel/src/memory/phys.rs:53-59 | the set of taken frames grows by exactly the frame, and the bitmap still says that set |
| Phys.FrameAllocator.ClearBit | kernel/src/memory/phys.rs:62-68 | the set of taken frames loses exactly the frame |
| Phys.FrameAllocator.IsTaken | kernel/src/memory/phys.rs:71-77 | true exactly for the taken frames |
| Phys.FrameAllocator.Init | kernel/src/memory/phys.rs:103-137 | for any memory size, kernel range and earlier bitmap content: what is taken afterwards, the counter modulo 2^64, and when it stops; the allocator is consistent if and only if the first MiB and the kernel lie in memory and nothing above the first MiB was taken before |
| Phys.FrameAllocator.FreeFramesCountsClearBits | kernel/src/memory/phys.rs:48 | in a consistent allocator the counter is the number of clear bits below the end of memory |
| Phys.FrameAllocator.AllocFrame | kernel/src/memory/phys.rs:144-155 | for any bitmap and counter: returns the lowest free frame of memory and takes only it, counting down modulo 2^64; fails exactly when every frame is taken; in a consistent allocator, exactly when the counter is 0 |
| Phys.ExcessStays | kernel/src/memory/phys.rs:144-165 | after an initialisation on a used bitmap, allocating and freeing frames of memory keep the number by which the counter is too large |
| Phys.FrameAllocator.FreeFrame | kernel/src/memory/phys.rs:159-165 | for any bitmap and counter: gives back exactly that frame; freeing a free frame, as in a double free, changes nothing; an address beyond the bitmap stops the machine |
| Phys.TakeAscending | kernel/src/memory/phys.rs:144-155 | successive allocations return free frames of memory in ascending order |
| Phys.TakeLowest | kernel/src/memory/phys.rs:144-155 | no free frame below one that was returned is passed over |
| Phys.TakeCount | kernel/src/memory/phys.rs:144-155 | k allocations succeed min(k, free) times |
| Phys.TakeIsConsecutive | kernel/src/memory/phys.rs:144-155 | k allocations return consecutive frames if and only if the k frames from the lowest free one on are all free |
| Phys.TakeIsRange | kernel/src/memory/phys.rs:144-155 | the k frames from the first one returned are the frames taken if and only if they were all free |
| Phys.RunsStayBalanced | kernel/src/memory/phys.rs:144-165 | over every run of allocations and honest releases the taken frames are the reserved plus the held ones, disjointly, and no reserved frame is ever handed out |
| Phys.KernelIsNeverHandedOut | kernel/src/memory/phys.rs:103-165 | from a proper initialisation on no run hands out a frame below 1 MiB or of the kernel, and taken frames are the reserved plus the held, never more than memory has |
| PageTables.DecodeNew | kernel/src/memory/paging.rs:61-84 | an entry built from an address and the base flags decodes to that frame, present, writable and with the user bit asked for |
| PageTables.IndexInjective | kernel/src/memory/paging.rs:107-124 | the four table indices determine the page |
| Paging.IndicesOfPage | kernel/src/memory/paging.rs:107-124 | the four index functions on an address are the base-512 digits of its page number |
| PageTables.OnePageOneEntry | kernel/src/memory/paging.rs:147-185 | in a well-shaped forest of tables a last-level entry serves one page of one address space below 2^47 |
| PageTables.LeafWriteIsLocal | kernel/src/memory/paging.rs:181-184 | overwriting one last-level entry changes the translation of one page and of no other, in any address space |
| PageTables.LinkKeepsShape | kernel/src/memory/paging.rs:156-180 | linking a zeroed free frame keeps the tables a forest of allocated frames |
| PageTables.LinkKeepsTranslations | kernel/src/memory/paging.rs:156-180 | linking an empty table changes no translation |
| PageTables.LeafIsTable | kernel/src/memory/paging.rs:147-185 | a walk that reaches the last level ends in a frame recorded as a last-level table |
| PageTables.DescentIsWalk | kernel/src/memory/paging.rs:147-180 | the descent that takes every present entry for a link is the processor walk unless it meets a large page |
| PageTables.LargePageStays | kernel/src/memory/paging.rs:181-184 | under a 1 GiB or 2 MiB entry the last write of map_page goes into the memory the descent came out at; unless that is a table, no page of any address space translates differently, so the page keeps its large mapping |
| Paging.Machine.EnsureTable | kernel/src/memory/paging.rs:156-163 | the next table is the one linked, or a fresh zeroed frame linked with the rights asked for; it fails exactly when the entry is empty and memory exhausted |
| Paging.Machine.EnsureWalk | kernel/src/memory/paging.rs:147-180 | after growing the walk nothing translates differently; it panics exactly when fewer frames are free than the walk lacks tables |
| Paging.Machine.MapPage | kernel/src/memory/paging.rs:147-185 | the page then leads to the given frame with the rights its links allow; every other page of every address space translates as before, below 2^47; tables stay a forest; it panics exactly when frames run out |
| Paging.Machine.FindLeafTable | kernel/src/memory/paging.rs:189-210 | finds the last-level table of a page exactly when the walk gets that far |
| Paging.Machine.UnmapPage | kernel/src/memory/paging.rs:189-213 | the page no longer translates, every other page does as before, and the tables keep their shape |
| Paging.MapUnmapRestores | kernel/src/memory/paging.rs:147-213 | mapping and then unmapping a page that was not mapped restores the whole translation function |
| Paging.Machine.MapThenUnmap | kernel/src/memory/paging.rs:147-213 | the same for the two calls in sequence |
| Paging.LeafWriteMaps | kernel/src/memory/paging.rs:181-184 | the entry write after the walk is grown makes the whole call a one-point update of the translation |
| Paging.WalkOfLinks | kernel/src/memory/paging.rs:189-210 | following three present links by hand is the walk of the processor |
| Bytes.StoreWord | kernel/src/memory/paging.rs:181-184 | storing an entry changes eight bytes of one frame, and reading it back gives the stored word |
| Bytes.ZeroFrame | kernel/src/memory/paging.rs:216-223 | one frame becomes zero and no other byte changes |
| UserSpace.NoSharedFrames | kernel/src/userspace.rs:109-152 | two mapped user pages, of one or of two address spaces, never share a frame |
| UserSpace.FreshFrameIsInvisible | kernel/src/userspace.rs:122-136 | filling a frame that was free changes no translation and no mapped byte |
| UserSpace.MappedKeepsIsolation | kernel/src/userspace.rs:138-149 | mapping a frame of its own at one page keeps isolation: user and writable at all four levels, upper half equal to the kernel, one frame for each page |
| UserSpace.OnePageFilled | kernel/src/userspace.rs:119-149 | filling and mapping one page lays exactly that page over the address space |
| UserSpace.CountTaken | kernel/src/userspace.rs:109-152 | the frames taken are the mapped pages plus the tables created |
| UserSpace.PageSliceByte | kernel/src/userspace.rs:122-136 | byte k of page i is byte 4096 i + k of the data, zero past its end |
| UserSpace.PagesCoverSize | kernel/src/userspace.rs:109-118 | a size gets as many pages as it needs and no more |
| UserSpace.UserSpaces.MapDataPage | kernel/src/userspace.rs:119-149 | one turn of the loop: the page holds its slice of the data in a frame of its own |
| UserSpace.UserSpaces.MapPages | kernel/src/userspace.rs:109-152 | after n turns pages 0 to n-1 hold their slices; also when memory runs out half way, only pages of the range changed |
| UserSpace.UserSpaces.MapUserPages | kernel/src/userspace.rs:109-152 | more than 256 pages are refused; otherwise the range holds the data padded with zeros, other pages and spaces are untouched, free frames fall by the pages plus the new tables, and n + 6 free frames always suffice, so the expect in map_page cannot fire |
| UserSpace.UserSpaces.AllocUserStack | kernel/src/userspace.rs:157-166 | sixteen zero pages below 0x7FFFFFFF0000; 22 free frames always suffice |
| UserSpace.UserSpaces.CreateAddressSpace | kernel/src/userspace.rs:74-98 | a new root with an empty lower half and the upper half in use; nothing else changes; fails exactly when no frame is free |
| UserSpace.UserSpaces.CopyUpperHalf | kernel/src/userspace.rs:84-95 | entries 256 to 511 of the new root equal those of the current one |
| Isolation.SpaceShowsItsOwnMappings | kernel/src/userspace.rs:74-152 | over every run of creations and mappings the lower half of an address space shows exactly the data mapped into it, newest on top, and nothing of any other |
| Isolation.OthersTranslateAsBefore | kernel/src/userspace.rs:74-152 | a run that maps nothing into an address space changes none of its translations, lower or upper half |
| Isolation.Perform | kernel/src/userspace.rs:74-152 | performs any list of creations and mappings with these calls; the states between the calls are such a run |
| BootTables.SetupPageTables | bootloader/boot.asm:93-115 | the stores and the loop of the boot code build one link, one link and 512 pages of 2 MiB, and write nothing else |
| BootTables.BootTablesAreShaped | bootloader/boot.asm:93-115 | the boot tables satisfy the shape invariant the paging code starts from |
| BootTables.BootTablesAreIdentity | bootloader/boot.asm:93-115 | the first GiB translates to itself, for the kernel alone, and no other page translates |
| BootTables.NewSpaceKeepsAllIff | kernel/src/userspace.rs:84-95 | a new address space translates every page as the current one does if and only if that one maps nothing below 2^47 |
| BootTables.NewSpaceLosesKernel | kernel/src/userspace.rs:84-95 | from the boot tables, after any run of creations and user mappings no page at all translates in a space just created, so no kernel page does |
| Pe.AcceptedHeadersAreInFile | kernel/src/win32/pe.rs:453-562 | an accepted image carries both signatures and the PE32+ magic, and every header range read lies in the file |
| Pe.AcceptedIffWellFormed | kernel/src/win32/pe.rs:453-562 | a file is accepted if and only if signatures, magic and all header ranges are right; when the MZ and the machine errors come out |
| Bytes.LowestByteFirst | kernel/src/win32/pe.rs:488-492 | the byte at the lowest address is the least significant one |
| Bytes.NumberIsRead | kernel/src/win32/pe.rs:453-562 | a number is read where its bytes are written, lowest byte first, and nowhere else |
| Pe.ParsedIffWritten | kernel/src/win32/pe.rs:453-562 | parsing returns exactly the headers the file carries, byte for byte: each field of DOS, file, optional and section headers is the number written at its offset, and nothing else is accepted |
| Pe.RvaToOffset | kernel/src/loader.rs:348-363 | the loop finds what the first section containing the RVA says |
| Pe.OffsetIsFirstMatch | kernel/src/loader.rs:348-363 | an RVA has a file offset if and only if a section contains it, and the first such section gives it |
| Loader.LoadPe | kernel/src/loader.rs:87-219 | a loaded image is headers, sections and a zeroed stack laid over each other in that order and nothing else; no other address space changes, also on failure; with enough free frames the outcome, each error included, is decided by the file alone |
| Loader.EarlyErrors | kernel/src/loader.rs:104-117 | wrong machine, DLL bit and an image above 16 MiB are rejected in this order, from the header bytes, and nothing else is |
| Loader.RefusedIff | kernel/src/loader.rs:140-188 | the first section above 1 MiB stops the load, as too large above 4 MiB and as out of memory below |
| Loader.AcceptedIff | kernel/src/loader.rs:87-219 | with enough memory an image loads if and only if machine, DLL bit, sizes of image, headers and sections are right and no import name lies past the file |
| Loader.MapImage | kernel/src/loader.rs:125-219 | the part after the address space was made: same image, same outcomes |
| Loader.MapSections | kernel/src/loader.rs:140-188 | the section loop adds one layer for each non-empty section; which section stops it and with which error |
| Loader.LoadRawBinary | kernel/src/loader.rs:225-254 | the code at 0x400000 and the stack, nothing else; fails exactly above 256 pages when memory suffices |
| Loader.LoadedSectionMatchesFile | kernel/src/loader.rs:140-188 | both views agree: the byte at a section offset below raw and memory size is the file byte at the offset of its RVA, and bytes past the raw data are zero |
| Loader.ProgramReadsFile | kernel/src/loader.rs:140-188 | in the address space the loader built, the byte that the page tables lead to at the address of an RVA is the file byte at the offset of that RVA, or zero past the raw data |
| Loader.ProgramReadsWrittenSection | kernel/src/loader.rs:140-188 | the same from the header bytes: in the section whose four numbers are written in the file the program reads the byte at the written raw offset |
| Loader.StackReadsZero | kernel/src/userspace.rs:157-166 | the 64 KiB of stack of a loaded image read zero |
| Loader.NothingElseIsMapped | kernel/src/loader.rs:87-219 | no page but those of headers, sections and stack is mapped below 2^47 |
| Loader.ProgramReadsRawBinary | kernel/src/loader.rs:225-254 | a raw binary is found byte for byte at 0x400000 |
| Loader.LoadedHeaderMatchesFile | kernel/src/loader.rs:128-138 | header bytes read as in the file wherever nothing is mapped over them |
| Loader.OwnOffset | kernel/src/loader.rs:348-363 | an RVA inside a page-disjoint section is answered from that section |
| Loader.SectionShows | kernel/src/loader.rs:140-188 | a page covered by one section only shows that section, whatever is laid before and after it |
| Loader.UncoveredBySections | kernel/src/loader.rs:140-188 | a page no section covers is not changed by the section loop |
| Loader.LayerAdded | kernel/src/loader.rs:136-210 | one more mapping lays one more layer over the new address space and leaves all others alone |
| Loader.ImportName | kernel/src/loader.rs:329-339 | the name ends at a zero, the end of the file or 129 bytes; an offset past the end of the file stops the kernel |
| Loader.NameLengthStops | kernel/src/loader.rs:329-334 | where a name ends, and that no zero lies before |
| Loader.WalkImports | kernel/src/loader.rs:300-344 | the descriptor loop terminates on every file and names exactly the descriptors up to a null one or the end of the sections |
| Loader.ImportsBounded | kernel/src/loader.rs:300-344 | at most one name for each 20 bytes between the directory and the end of the sections |
| Loader.ImportsAreRead | kernel/src/loader.rs:300-344 | from descriptors and names laid out in the file the walk returns exactly the names, in order, without those that lie in no section |
| Loader.DirectoryDecides | kernel/src/loader.rs:268-345 | the second directory entry gives address and size of the imports; either being 0 means none |
| Loader.NoDirectoryNoImports | kernel/src/loader.rs:268-345 | with fewer than two entries, or entries past the end of the file, there are no imports |
| Loader.LogImports | kernel/src/loader.rs:268-345 | the guards before the walk: directory count, directory in the file, empty directory |
| Objects.HandlesNameLiveObjects | kernel/src/win32/object.rs:292-349 | no handle names an empty pool slot |
| Objects.ReferenceThenDereference | kernel/src/win32/object.rs:411-443 | taking and dropping a reference restores the pool exactly |
| Objects.CreateThenDereference | kernel/src/win32/object.rs:381-443 | creating and dropping an object restores the pool exactly |
| Objects.CreateKeepsInv | kernel/src/win32/object.rs:381-408 | a created object has one reference, held by the caller, and the live count grows by one |
| Objects.CreatedAsAsked | kernel/src/win32/object.rs:381-408 | the lowest empty slot gets the type, body and first 127 name bytes given and one reference; every other slot is untouched; fails exactly when none is empty |
| Objects.HandleGiven | kernel/src/win32/object.rs:292-307 | the lowest free entry from 1 on gets object and access; the handle is four times its number; every other entry is untouched |
| Objects.CreatedHandleNamesObject | kernel/src/win32/ntapi.rs:303-365 | the handle of a create call was free and leads to a new object of the type and body asked for, with the access asked for; all other handles and objects are as before |
| Objects.CreateThenOpen | kernel/src/win32/object.rs:381-513 | a newly named object opens under its name and type exactly while the table has room, and with another type never |
| Objects.ReferenceCounts | kernel/src/win32/object.rs:411-419 | a live count goes up by one modulo 2^32 and nothing else changes |
| Objects.DereferenceKeepsInv | kernel/src/win32/object.rs:422-443 | dropping a reference that is held never fails and removes the object with its last one |
| Objects.FailedOpenChangesNothing | kernel/src/win32/object.rs:484-513 | open succeeds if and only if the name is found, the type fits and the table has room; otherwise pool and table are untouched |
| Objects.OpenErrors | kernel/src/win32/object.rs:484-513 | which error comes out: no such name, another type, a full table |
| Objects.OpenedHandleNamesObject | kernel/src/win32/object.rs:484-513 | a new handle names the object found with the access asked for, was free before, and no other handle changes its meaning |
| Objects.FailedCreateChangesNothing | kernel/src/win32/ntapi.rs:303-334 | the create calls fail if and only if pool or table is full, and then leave no trace |
| Objects.OpenThenClose | kernel/src/win32/object.rs:484-535 | opening and closing again restores pool and table exactly |
| Objects.CreateThenLookup | kernel/src/win32/object.rs:381-460 | a new object is found under its name if and only if the name fits 127 bytes and no earlier slot carries it |
| Objects.OpenKeepsInv | kernel/src/win32/object.rs:484-513 | open keeps every reference count equal to the handles and kernel references there are |
| Objects.CloseKeepsInv | kernel/src/win32/object.rs:520-535 | so does close, whatever the handle |
| Objects.CloseErrors | kernel/src/win32/object.rs:520-535 | a handle that names nothing and a protected one are refused with their errors and stay; any other entry is emptied and its object dereferenced |
| Objects.NtCreateKeepsInv | kernel/src/win32/ntapi.rs:303-365 | so do the create calls, with rollback or without |
| Objects.DuplicateKeepsInv | kernel/src/win32/object.rs:339-349 | so does duplicate when it is paired with a reference |
| Objects.RunKeepsInv | kernel/src/win32/object.rs:381-535 | over every run of these calls on any number of handle tables: each count equals handle entries plus kernel references, count equals live slots, no handle dangles |
| Objects.BareDuplicate | kernel/src/win32/object.rs:339-349 | as written, duplicate keeps the conservation if and only if it fails, that is, for an invalid source or a full table |
| Objects.DuplicateNamesObject | kernel/src/win32/object.rs:339-349 | the copy is a new handle for the same object with the access asked for, and the source keeps its entry |
| Objects.DanglingCopyIsReached | kernel/src/win32/object.rs:339-349 | from boot: create an event, duplicate its handle, close the original; the copy names an empty slot |
| Objects.BootedInv | kernel/src/win32/object.rs:365-374 | the empty pool and tables satisfy the invariant |
| ObjectManager.ObjectPool.CreateObject | kernel/src/win32/object.rs:381-408 | the loop over the slots performs the create of the specification |
| ObjectManager.ObjectPool.ReferenceObject | kernel/src/win32/object.rs:411-419 | performs the reference step, with a wrapping 32-bit count |
| ObjectManager.ObjectPool.DereferenceObject | kernel/src/win32/object.rs:422-443 | performs the dereference step, error cases included |
| ObjectManager.ObjectPool.LookupObject | kernel/src/win32/object.rs:446-460 | the lowest live slot of that exact name, or nothing when there is none |
| ObjectManager.ObjectPool.GetObjectType | kernel/src/win32/object.rs:463-468 | the type exactly when the slot is live |
| ObjectManager.HandleTable.Alloc | kernel/src/win32/object.rs:292-307 | the first free entry from 1 on, as four times its index, or the invalid handle |
| ObjectManager.HandleTable.Get | kernel/src/win32/object.rs:310-320 | the entry exactly when the handle names a used one |
| ObjectManager.HandleTable.Close | kernel/src/win32/object.rs:323-336 | empties the entry unless it is invalid or protected |
| ObjectManager.HandleTable.DuplicateHandle | kernel/src/win32/object.rs:339-349 | a second entry for the object and no reference |
| ObjectManager.OpenObject | kernel/src/win32/object.rs:484-513 | performs the open of the specification with its rollback |
| ObjectManager.CloseHandle | kernel/src/win32/object.rs:520-535 | performs the close of the specification |
| ObjectManager.NtCreateFile | kernel/src/win32/ntapi.rs:105-160 | a null name is refused; otherwise a file object with a handle that the caller never learns; the status block repeats the status, and its information is written on success only |
| ObjectManager.NtCreateEvent | kernel/src/win32/ntapi.rs:303-334 | an event with the given reset mode and state, with rollback |
| ObjectManager.NtCreateMutant | kernel/src/win32/ntapi.rs:342-365 | a mutant owned or free as asked, with rollback |
| ObjectManager.NtOpenKey | kernel/src/win32/ntapi.rs:474-499 | a key object, with rollback |
| ObjectManager.NtCreateSection | kernel/src/win32/ntapi.rs:517-542 | a section of the given size, with rollback |
| Context.StepKeepsParked | kernel/src/scheduler.rs:178-205 | work on the own stack, a switch or a spawn leaves every other thread suspended as it was, and a switch continues the thread it names |
| Context.SuspendedThreadResumes | kernel/src/scheduler.rs:178-205 | however others run and switch, a suspended thread continues with the registers, stack pointer and address it was left with |
| Context.SwitchOutAndBack | kernel/src/scheduler.rs:365-374 | a thread switched out and later in returns from its call with its own rbp, rbx, r12 to r15, stack pointer and return address |
| Context.FreshThreadStartsAtEntry | kernel/src/scheduler.rs:117-132 | the first resume of a new thread jumps to its entry with zeroed registers and an empty stack |
| Context.Cpu.SwitchTo | kernel/src/scheduler.rs:178-205 | six pushes, the exchange of stack pointers, six pops and the return compute the switch of the specification |
| Context.Cpu.PrepareStack | kernel/src/scheduler.rs:117-132 | the seven words under the top are the entry and six zeros; nothing else changes |
| Context.Cpu.AllocKernelStack | kernel/src/scheduler.rs:152-166 | takes and zeroes the four lowest free frames and returns the first; on failure the frames already taken stay taken |
| KernelStacks.StackIsOwn | kernel/src/scheduler.rs:152-166 | no word of the 16 KiB a new thread runs on belongs to anyone else if and only if the three frames after the lowest free one are free too |
| KernelStacks.StepKeepsInv | kernel/src/scheduler.rs:152-166 | such a spawn, any other allocation and any release of other frames keep all stacks apart and in taken frames |
| KernelStacks.RunKeepsStacksApart | kernel/src/scheduler.rs:152-166 | the same over every run |
| KernelStacks.OverlapIsReached | kernel/src/scheduler.rs:152-166 | three calls leave a gap of one frame, and the next stack runs over a frame that is taken |
| KernelStacks.SpawnKeepsParked | kernel/src/scheduler.rs:214-254 | a thread spawned on such a stack is suspended at its entry, and every suspended thread stays as it was, so the switching laws hold for the grown set of threads |
| KernelStacks.NewStackIsZero | kernel/src/scheduler.rs:152-166 | below the seven words of its first frame a new stack reads zero |
| Scheduling.PickIsLastOfTheBest | kernel/src/scheduler.rs:333-341 | the scan returns the unique ready thread of highest priority that comes last in cyclic order, and nothing if and only if nothing is ready |
| Scheduling.RunKeepsInv | kernel/src/scheduler.rs:260-415 | over every run of calls by a current thread in whatever state, at most one thread is running and it is the current one |
| Scheduling.StopSwitchesIff | kernel/src/scheduler.rs:381-402 | block_current and exit_current leave the caller blocked or dead, and hand over the processor if and only if another thread is ready; otherwise the call returns |
| Scheduling.DeadStepIff | kernel/src/scheduler.rs:260-402 | one call leaves a dead thread dead unless it is current and the call is a sleep or a block |
| Scheduling.StaysDeadIff | kernel/src/scheduler.rs:260-402 | over a run a thread stays dead if and only if it is never current in a call of sleep or block |
| Scheduling.DeadStaysDead | kernel/src/scheduler.rs:301-390 | once the processor has left a dead thread no run brings it back or makes it current |
| Scheduling.ExitIsFinalIff | kernel/src/scheduler.rs:381-390 | exit_current is final over every run if and only if another thread was ready |
| Scheduling.ExitReturnsAtBoot | kernel/src/scheduler.rs:381-390 | from boot: the exit of the only thread returns, and blocking then revives it |
| Scheduling.ScheduleSelects | kernel/src/scheduler.rs:313-376 | afterwards the current thread runs with maximal priority among the runnable, last in cyclic order, or nothing was runnable and nothing changed |
| Scheduling.RunningThreadYieldsOnlyToHigher | kernel/src/scheduler.rs:333-364 | a running thread is switched away from if and only if a ready thread has strictly higher priority |
| Scheduling.RunKeepsCounts | kernel/src/scheduler.rs:214-254 | over every run no two threads have one id, and the thread count of the kernel process is the number of threads in the table |
| Scheduling.BootCounts | kernel/src/scheduler.rs:67-92 | ids and thread count are right at boot |
| Scheduling.BootState | kernel/src/scheduler.rs:67-92 | at boot the idle thread, of idle priority, runs in slot 0 and all else is empty |
| Scheduling.SpawnAddsThread | kernel/src/scheduler.rs:214-254 | the lowest empty slot gets a ready thread with the priority asked for, the id returned and 31 bytes of the name; every other slot, the current thread and all deadlines stay; with a full table only an id is used up |
| Scheduling.HighestSpawnRuns | kernel/src/scheduler.rs:216-252 | a thread spawned with a priority above all that can run is current and running after the next schedule |
| Scheduling.FirstThreadOfBoot | kernel/src/scheduler.rs:216-252 | of one thread of high and two of low priority spawned from boot the first runs first |
| Scheduling.ReinitKeepsInvIff | kernel/src/ktest.rs:851-854 | initialising again keeps the invariant if and only if no thread but that of slot 0 was running; the other slots keep their threads |
| Scheduling.LeftRunningIsStranded | kernel/src/scheduler.rs:301-364 | a thread left running without being current is never chosen again over any run |
| Scheduling.TickEffect | kernel/src/scheduler.rs:274-295 | a tick counts, and clears exactly the deadlines that have come |
| Scheduling.UnblockEffect | kernel/src/scheduler.rs:405-415 | a blocked thread becomes ready, and nothing else changes |
| Fairness.TiesNeverYield | kernel/src/scheduler.rs:333-341 | while no thread of higher priority may run the running thread keeps the processor for any number of ticks |
| Fairness.KeepsProcessorIffUnrivalled | kernel/src/scheduler.rs:333-341 | the running thread keeps the processor for ever if and only if no thread of higher priority is ready or will be woken by its deadline |
| Fairness.SharesIffAlone | kernel/src/scheduler.rs:333-341 | as written, every member of a team of always-ready threads of equal top priority runs within as many ticks as it has members if and only if it has one member |
| Fairness.FirstOfTwoNeverRuns | kernel/src/scheduler.rs:333-341 | such a team is reached from boot by two spawns, and one of the two never runs |
| Fairness.NextRuns | kernel/src/scheduler.rs:333-341 | repaired with a strict comparison: every tick moves to the next thread of the team in cyclic order |
| Fairness.TeamStays | kernel/src/scheduler.rs:333-341 | repaired: the team stays a team over any number of ticks, beside dead threads and blocked ones without a deadline of any priority |
| Fairness.EveryoneRunsWithinTeamSize | kernel/src/scheduler.rs:333-341 | repaired: k always-ready top-priority threads each run within any k ticks |
| Sleeping.TickWakes | kernel/src/scheduler.rs:274-288 | a tick ends the wait of a blocked thread if and only if its deadline is set and has come |
| Sleeping.StepWhileWaiting | kernel/src/scheduler.rs:260-415 | a blocked thread keeps waiting with its deadline through a call if and only if the call is neither unblock_thread on it, nor its own exit or sleep after a call that returned, nor the tick that is due |
| Sleeping.SwitchedAwayIsUndisturbed | kernel/src/scheduler.rs:301-364 | once the processor has left the waiting thread only unblock_thread on it disturbs the wait |
| Sleeping.SleepIsExact | kernel/src/scheduler.rs:260-299 | for every caller and tick count: the call returns at once if and only if no other thread is ready; over every run that does not disturb the wait the caller is blocked until the tick of its deadline, runnable after it, and running if it outranks the rest |
| Sleeping.DeadlineIsExactIff | kernel/src/scheduler.rs:260-285 | the deadline is n ticks away if and only if n is at least 1 and it does not wrap, or the tick counter itself wraps at the next tick |
| Sleeping.WaitEndsIffDeadlineSet | kernel/src/scheduler.rs:274-288 | ticks alone, and any run that does not disturb it, end the wait of a blocked thread if and only if its deadline is not 0, whatever set it |
| Sleeping.BlockEndsIffDeadlineLeft | kernel/src/scheduler.rs:392-402 | the caller of block_current stays blocked until unblock_thread if and only if it has no deadline left from an earlier sleep; the call itself returns at once if and only if no other thread is ready |
| Sleeping.SleepEndsIffDeadlineSet | kernel/src/scheduler.rs:260-271 | the wait of sleep_ticks(n) ends by itself if and only if (ticks + n) mod 2^64 is not 0; the call itself returns at once if and only if no other thread is ready |
| Sleeping.StaleDeadline | kernel/src/scheduler.rs:405-415 | after an early unblock the old deadline is still armed when the thread blocks again |
| Sleeping.StaleDeadlineIsReached | kernel/src/scheduler.rs:405-415 | from boot six calls lead to a blocked thread whose wait an old deadline ends |
| ThreadTable.Scheduler.Init | kernel/src/scheduler.rs:67-92 | the idle thread in slot 0 is running and current, at idle priority |
| ThreadTable.Scheduler.SpawnKernelThreadWithPriority | kernel/src/scheduler.rs:214-254 | a ready thread in the first empty slot with the next id, process 0, at most 31 bytes of its name and its prepared stack, counted for process 0; the id is used up and the four frames are lost when the table is full |
| ThreadTable.Scheduler.Schedule | kernel/src/scheduler.rs:313-376 | performs the selection, and switches the processor exactly when another thread becomes current |
| ThreadTable.Scheduler.FindNext | kernel/src/scheduler.rs:333-341 | the loop over the table computes the scan |
| ThreadTable.Scheduler.SleepTicks | kernel/src/scheduler.rs:260-271 | sets the deadline, blocks the caller and schedules |
| ThreadTable.Scheduler.Stop | kernel/src/scheduler.rs:381-402 | block_current and exit_current: the state changes and another thread is chosen |
| ThreadTable.Scheduler.WakeSleepingThreads | kernel/src/scheduler.rs:274-288 | exactly the due slots lose their deadline, and their blocked threads become ready |
| ThreadTable.Scheduler.TimerTick | kernel/src/scheduler.rs:295-299 | one tick: count, wake, schedule |
| ThreadTable.Scheduler.UnblockThread | kernel/src/scheduler.rs:405-415 | a blocked thread becomes ready; its deadline stays |
| Paths.ComponentsOfSlash | kernel/src/vfs/mod.rs:438-478 | the components of p/q are those of p followed by those of q |
| Paths.ComponentsOfJoined | kernel/src/vfs/mod.rs:438-478 | writing a path from proper names and splitting it gives the names back |
| Paths.ProperNameIsOneComponent | kernel/src/vfs/mod.rs:438-478 | a name is its own single component if and only if it is non-empty and has no slash |
| Paths.PathLookup | kernel/src/vfs/mod.rs:438-478 | the nested loops compute the fold of child lookup over the non-empty components, for every path and table |
| Paths.FindChildDentry | kernel/src/vfs/mod.rs:481-493 | the first active entry of that parent and name |
| Paths.LookupComposes | kernel/src/vfs/mod.rs:438-478 | p/q resolves q from where p leads |
| Paths.SlashesIgnored | kernel/src/vfs/mod.rs:438-478 | repeated, trailing and leading slashes make no difference |
| Ramfs.AsWrittenNothingIsCreated | kernel/src/vfs/ramfs.rs:124-166 | as written, create returns None in every state, because the getter refuses the slot just allocated, and changes no entry |
| Ramfs.AsWrittenNothingChanges | kernel/src/vfs/ramfs.rs:124-166 | as written, on tables without entries no run of creates changes anything, inodes and pages included |
| Ramfs.AsWrittenFromBoot | kernel/src/vfs/ramfs.rs:124-166 | so from the tables at boot every run of creates leaves them as they were |
| Ramfs.CreateAddsEntry | kernel/src/vfs/mod.rs:574-588 | repaired: create succeeds if and only if the path leads to a directory and an inode is left, and otherwise changes nothing; the new entry comes after its parent, and the tree invariant holds |
| Ramfs.FullTreeUsesAllInodes | kernel/src/vfs/ramfs.rs:124-166 | a tree that fills the entry table has used all inodes, so none is taken in vain |
| Ramfs.NoInodeIsLost | kernel/src/vfs/ramfs.rs:124-166 | repaired: over every run of creates each inode in use is named by an entry |
| Ramfs.NoInodeIsLostAfterMount | kernel/src/vfs/ramfs.rs:124-166 | so it is over every run of creates from the mounted tables on |
| Ramfs.CreateThenLookup | kernel/src/vfs/ramfs.rs:124-166 | repaired: earlier lookups stay as they were, and path/name leads to the new entry if and only if the name cut to 63 bytes is its only component and was not taken |
| Ramfs.CreatesKeepLookups | kernel/src/vfs/mod.rs:574-588 | repaired: over every run of creates, failed ones included, the entries stay a tree with parents before children, and no path found before is lost or moved |
| Ramfs.ShortNames | kernel/src/vfs/mod.rs:276-281 | for names up to 63 bytes that condition is a non-empty, slash-free, new name |
| Ramfs.WalkStaysInTree | kernel/src/vfs/mod.rs:438-478 | walks only lead to later entries of the tree |
| Ramfs.MountedTree | kernel/src/vfs/ramfs.rs:244-324 | repaired: after mounting, root and six directories form the tree, and each is found by its path |
| Ramfs.MountPanics | kernel/src/vfs/ramfs.rs:246-263 | mounting stops the kernel if and only if a superblock is left and the allocator does not activate it |
| Ramfs.MountEffect | kernel/src/vfs/ramfs.rs:246-268 | repaired: the first free superblock becomes active with the type ramfs and the inode of the new root; the others are untouched |
| Ramfs.RootEntry | kernel/src/vfs/ramfs.rs:260-285 | repaired: the root is a directory inode and an entry named / without a parent |
| Ramfs.RemountIsInvisible | kernel/src/ktest.rs:840-844 | mounting again on a table that is a tree, as the recovery does, changes what no path leads to, activating or not |
| Ramfs.ReadAfterWrite | kernel/src/vfs/ramfs.rs:169-233 | what was written is read back, other bytes are as before, and a gap reads zero |
| Ramfs.WritesCompose | kernel/src/vfs/ramfs.rs:195-233 | two successive writes are one write of both pieces |
| Ramfs.WriteCounts | kernel/src/vfs/mod.rs:537-551 | how many bytes a write stores, when it fails, and that the offset moves by that count |
| Ramfs.WritesOfDescriptorCompose | kernel/src/vfs/mod.rs:537-551 | two writes in a row through one descriptor leave contents, offset and summed counts of one write of both pieces, at every offset |
| Ramfs.ReadGoesOnAfterWrite | kernel/src/vfs/mod.rs:520-551 | a read right after a write goes on behind what was written |
| Ramfs.ReadFailsIff | kernel/src/vfs/mod.rs:520-534 | a read fails exactly on an unusable descriptor, and what is no file has no bytes |
| Ramfs.SeekSets | kernel/src/vfs/mod.rs:563-569 | sets the offset of that open descriptor and of no other |
| Ramfs.ClosedIsRefused | kernel/src/vfs/mod.rs:554-560 | a closed descriptor is refused by read, write and seek, and the others stay |
| Ramfs.OpenTakesLowest | kernel/src/vfs/mod.rs:499-517 | takes the lowest free descriptor with the mode given; fails exactly without an inode in use or a free descriptor |
| Ramfs.PageWritten | kernel/src/vfs/ramfs.rs:210-230 | the copy into the page is the splice of the content, and bytes past the end stay zero |
| Ramfs.FilesAreIsolated | kernel/src/vfs/mod.rs:499-569 | over every run of descriptor calls a file changes only by writes to it |
| Ramfs.WriteSeenByOthers | kernel/src/vfs/mod.rs:520-569 | what one descriptor writes, another descriptor of the same file reads at that offset |
| Ramfs.OpenReadsFromStart | kernel/src/vfs/mod.rs:499-534 | a new descriptor reads the file from its start, and open descriptors are untouched |
| Ramfs.ReadsCompose | kernel/src/vfs/mod.rs:520-534 | two reads in a row return what one read of both lengths would |
| Vfs.PageGiven | kernel/src/vfs/ramfs.rs:200-209 | a fresh zeroed page changes no content and is shared with no file |
| Vfs.FileWritten | kernel/src/vfs/ramfs.rs:210-230 | a write to one file leaves the content of every other file alone |
| Vfs.FileSystem.AllocInodeSlot | kernel/src/vfs/ramfs.rs:40-77 | the first free inode becomes an empty node of that type |
| Vfs.FileSystem.Create | kernel/src/vfs/ramfs.rs:124-166 | performs the create of the specification; a new file gets a page exactly when an inode is taken and a frame is free; no existing content changes |
| Vfs.FileSystem.Open | kernel/src/vfs/mod.rs:499-517 | a descriptor at offset 0 for the inode the path leads to, or nothing when path, inode or slot is missing |
| Vfs.FileSystem.Read | kernel/src/vfs/mod.rs:520-534 | returns exactly the slice at the offset and advances by its length; -1 for an unusable descriptor |
| Vfs.FileSystem.Write | kernel/src/vfs/mod.rs:537-551 | splices the fitting prefix in at the offset and advances by its length; -1 for an unusable descriptor or without a page |
| Vfs.FileSystem.ReadPage | kernel/src/vfs/ramfs.rs:169-192 | the bytes of the page at the offset are those of the content |
| Vfs.FileSystem.WritePage | kernel/src/vfs/ramfs.rs:195-233 | the content becomes the splice, and only that content |
| Vfs.FileSystem.Seek | kernel/src/vfs/mod.rs:563-569 | sets the offset of an active descriptor only |
| Vfs.FileSystem.Close | kernel/src/vfs/mod.rs:554-560 | deactivates that descriptor only |
| Vfs.FileSystem.AllocDentry | kernel/src/vfs/mod.rs:400-409 | the first inactive slot, marked as used or not |
| Vfs.FileSystem.FillDentry | kernel/src/vfs/mod.rs:423-431 | an inactive slot is refused |
| Vfs.FileSystem.AllocSuperblock | kernel/src/vfs/mod.rs:329-338 | the first inactive slot, marked as used or not |
| Vfs.FileSystem.Init | kernel/src/vfs/ramfs.rs:244-296 | performs the mount of the specification on any tables: the early returns, the panic on a refused superblock, the directories under the slot the root got |
| Kmalloc.MallocFailsIff | kernel/src/drivers/linux_shim/mod.rs:151-182 | an allocation fails if and only if it asks for nothing, for more than 64 pages, or for more pages than frames are free; allocator and table are then as before |
| Kmalloc.PagesCoverSize | kernel/src/drivers/linux_shim/mod.rs:151-156 | a size gets as many pages as it needs and no more |
| Kmalloc.AllocationIsRecorded | kernel/src/drivers/linux_shim/mod.rs:69-87 | the lowest blank entry gets address and page count; a full table stays as it is |
| Kmalloc.WhatFreeReturns | kernel/src/drivers/linux_shim/mod.rs:205-221 | nothing for null, the pages of the first record of the address, or one page for an address without a record |
| Kmalloc.ClearedReadsZero | kernel/src/drivers/linux_shim/mod.rs:190-192 | the bytes cleared read zero and no other changes |
| Kmalloc.ZeroFillSparesOthersIff | kernel/src/drivers/linux_shim/mod.rs:190-192 | clearing the block changes no byte of a frame taken before, whatever memory holds, if and only if the frames after the lowest free one are free |
| Kmalloc.MallocThenFree | kernel/src/drivers/linux_shim/mod.rs:151-221 | allocating and freeing restores bitmap, counter and table if and only if the frames were consecutive and the table had room, or the table was full and the block one page |
| Kmalloc.SmallGapIsReached | kernel/src/drivers/linux_shim/mod.rs:151-221 | from boot three calls leave a gap of one page; two pages allocated then are not restored by freeing them, and clearing them clears a page of somebody else |
| Kmalloc.StepKeepsLedger | kernel/src/drivers/linux_shim/mod.rs:151-221 | each call keeps the recorded blocks disjoint ranges of taken frames and touches no frame of anyone else |
| Kmalloc.RunKeepsLedger | kernel/src/drivers/linux_shim/mod.rs:151-221 | the same over every run |
| Kmalloc.TakeFrames | kernel/src/drivers/linux_shim/mod.rs:166-182 | all the frames or none: the rollback gives back exactly what was taken |
| Kmalloc.Shim.TableInsert | kernel/src/drivers/linux_shim/mod.rs:69-87 | records the block in the first free slot, or nowhere when the table is full |
| Kmalloc.Shim.TableRemove | kernel/src/drivers/linux_shim/mod.rs:90-111 | forgets the first record of that address and returns its page count, 0 for none |
| Kmalloc.Shim.Allocate | kernel/src/drivers/linux_shim/mod.rs:151-194 | performs the allocation of the specification, fails exactly when size or free frames say so, and with GFP_ZERO clears that many pages from the first frame |
| Kmalloc.Shim.Release | kernel/src/drivers/linux_shim/mod.rs:205-221 | frees the recorded pages, or one page for an unknown address; stops the machine exactly for an unknown address beyond the bitmap |
| Drivers.NewestIsLast | kernel/src/drivers/mod.rs:263-285 | a driver registered later is the last choice for every device |
| Drivers.WhatADriverMatches | kernel/src/drivers/mod.rs:216-228 | a driver matches devices of its bus only: one device, one vendor, one device id, or all, where 0xFFFF stands for any |
| Drivers.BoundDriverAccepts | kernel/src/drivers/mod.rs:244-300 | a bound driver matches and accepts its device, and no lower one does both |
| Drivers.DeviceTakesLowestSlot | kernel/src/drivers/mod.rs:244-259 | the lowest free slot gets the device, active and with its identity, and no other changes |
| Drivers.DriverTakesLowestSlot | kernel/src/drivers/mod.rs:263-285 | the lowest free slot gets the driver, active, and bound devices stay as they are |
| Drivers.RunKeepsBinding | kernel/src/drivers/mod.rs:244-300 | after any interleaving of registrations each active device is bound to the lowest driver that matches and accepts it, and to none if and only if none does |
| Drivers.OrderDoesNotMatter | kernel/src/drivers/mod.rs:244-300 | two histories that end with the same drivers bind the same device alike |
| Drivers.DeviceManager.RegisterDevice | kernel/src/drivers/mod.rs:244-259 | the device takes the first free slot and its best driver |
| Drivers.DeviceManager.TryBindDriver | kernel/src/drivers/mod.rs:288-300 | binds the lowest driver that matches and accepts, or leaves the device as it is |
| Drivers.DeviceManager.RegisterDriver | kernel/src/drivers/mod.rs:263-285 | the driver takes the first free slot and the unbound devices it serves |
| Ipc.MakeRequest | kernel/src/ipc.rs:140-148 | the message carries the first min(len, 256) bytes given |
| Ipc.RunIsFifo | kernel/src/ipc.rs:272-303 | on all 64 slots, over every run: what was delivered followed by what is queued is what was accepted, in order, and at most 16 are queued |
| Ipc.SendAnswers | kernel/src/ipc.rs:272-282 | accepted exactly by an active endpoint with fewer than 16 pending; when each of the two errors comes out; what changes |
| Ipc.BurstIsDelivered | kernel/src/ipc.rs:272-303 | up to 16 messages to an empty endpoint are all accepted and received in order; after 16 the next is refused as full until one is received |
| Ipc.SixteenAreAccepted | kernel/src/ipc.rs:204-212 | messages are accepted as long as no more than 16 are pending |
| Ipc.ReceiveAnswers | kernel/src/ipc.rs:286-303 | fails exactly on an inactive or empty endpoint, and otherwise takes the oldest message |
| Ipc.RegisterAnswers | kernel/src/ipc.rs:235-253 | fails exactly on a name above 32 bytes or a full table, and otherwise gives the lowest inactive endpoint this name and owner |
| Ipc.UnregisteredIsGone | kernel/src/ipc.rs:306-312 | an unregistered endpoint refuses messages, gives none and is not found |
| Ipc.SlotsAreIndependent | kernel/src/ipc.rs:235-312 | a slot changes only by calls on it; a registration counts only for the slot it takes |
| Ipc.ActiveSlotIsLeftAlone | kernel/src/ipc.rs:235-312 | no run in which no call carries its number concerns an active slot, whoever registers what |
| Ipc.SendThenReceive | kernel/src/ipc.rs:272-303 | a message sent to an empty slot is the next received, and the slot is empty again |
| Ipc.RegisterThenFind | kernel/src/ipc.rs:235-269 | a registered endpoint is found by its name if and only if no earlier slot carries the name |
| Ipc.NewOwnerReceivesOldMessages | kernel/src/ipc.rs:235-253 | registering does not clear the queue: the new owner first receives what the previous one left, if and only if it left something |
| Ipc.OldMessageIsReached | kernel/src/ipc.rs:235-253 | from boot: register, send, unregister, register; the new owner receives the old message |
| Ipc.Endpoint.Enqueue | kernel/src/ipc.rs:204-212 | appends unless 16 are pending; the write index stays (read + count) mod 16 |
| Ipc.Endpoint.Dequeue | kernel/src/ipc.rs:215-223 | takes the oldest message, none exactly when the ring is empty |
| Ipc.Endpoints.Send | kernel/src/ipc.rs:272-282 | performs the send; the other slots are untouched |
| Ipc.Endpoints.Receive | kernel/src/ipc.rs:286-303 | performs the receive; the other slots are untouched |
| Ipc.Endpoints.RegisterEndpoint | kernel/src/ipc.rs:235-253 | names longer than 32 bytes are refused; otherwise the first inactive slot is taken with its queue as it is |
| Ipc.Endpoints.UnregisterEndpoint | kernel/src/ipc.rs:306-312 | deactivates one slot and keeps its queue |
| Ipc.Endpoints.FindEndpoint | kernel/src/ipc.rs:256-269 | the lowest active slot of that exact name |
| Diagnostics.Accounting | kernel/src/ktest.rs:420-476 | passed plus failed is the number of checks, recovered at most passed, recovery attempts at most 3 a subsystem |
| Diagnostics.FailsAtIff | kernel/src/ktest.rs:426-476 | a check finally fails exactly when its first answer is no and it is optional, has no recovery, its budget of three is used up, or recovery or recheck fail |
| Diagnostics.AttemptsAreRetries | kernel/src/ktest.rs:446-449 | the attempts of a subsystem are those of earlier runs and one for each check tried to repair |
| Diagnostics.CountersCount | kernel/src/ktest.rs:420-476 | passed, failed and recovered are the numbers of checks that passed, failed, and passed after a repair |
| Diagnostics.LogTells | kernel/src/ktest.rs:420-476 | the events of one check tell its first answer, whether it was tried to repair, and how that ended |
| Diagnostics.FlagsAreFailures | kernel/src/ktest.rs:470-476 | the flags of a subsystem say exactly whether one of its checks, or a critical one, finally failed |
| Diagnostics.TroubleIsFailure | kernel/src/ktest.rs:479-498 | a subsystem is degraded or failed if and only if one of its checks finally failed |
| Diagnostics.HealthIs | kernel/src/ktest.rs:479-498 | Unknown, Failed, Degraded, Recovered and Healthy, each in terms of the checks of the subsystem |
| Diagnostics.ModeIsDecidedByFailures | kernel/src/ktest.rs:500-540 | from Normal: halted iff a critical memory check failed; else Minimal iff a critical scheduler check did; else Safe iff a critical filesystem check or checks of two subsystems did; else Normal |
| Diagnostics.ModeFromOther | kernel/src/ktest.rs:500-540 | a run that starts in another mode leaves it only for Minimal |
| Diagnostics.SafeModeIsLogged | kernel/src/ktest.rs:500-540 | what the log holds after a run, and when entering safe mode is logged |
| Diagnostics.DegradedAreLogged | kernel/src/ktest.rs:479-498 | exactly the degraded subsystems are logged, each once and in order |
| Diagnostics.LogUse | kernel/src/ktest.rs:181-192 | a run emits at most three events a check and seven more, so a first run over the 18 checks drops none |
| Diagnostics.AtLeastTwo | kernel/src/ktest.rs:213-223 | the count is at least two if and only if two different subsystems are in trouble |
| Diagnostics.Diagnoser.RunAll | kernel/src/ktest.rs:407-561 | the loop, health update and mode decisions compute the report of the specification and log its events |
| Diagnostics.Diagnoser.LogEvent | kernel/src/ktest.rs:181-192 | appends below 64 events and drops above |
| Diagnostics.Diagnoser.DegradedCount | kernel/src/ktest.rs:213-223 | counts the degraded and failed subsystems |
| Diagnostics.Diagnoser.UpdateHealth | kernel/src/ktest.rs:479-498 | sets each health from the flags and logs the degraded ones |
| Multiboot.WalkIsExact | kernel/src/multiboot2.rs:105-133 | on a buffer laying out tags padded to 8 bytes the iterator yields exactly the tags before the end tag |
| Multiboot.WalkAdvances | kernel/src/multiboot2.rs:105-133 | on any memory the yielded addresses grow by at least 8 and stay below the end |
| Multiboot.FindIsFirst | kernel/src/multiboot2.rs:141-176 | reads the 22 bytes behind the header of the first type-8 tag, which are its fields when it is long enough, and finds nothing exactly when there is no such tag |
| Multiboot.FramebufferReadIff | kernel/src/multiboot2.rs:49-60 | the fields read are exactly the numbers written at their places in the tag |
| Multiboot.TagIterator.Next | kernel/src/multiboot2.rs:108-132 | yields the next tag and moves past it, or stays at the end |
| Multiboot.FindFramebuffer | kernel/src/multiboot2.rs:141-176 | the loop over the iterator finds what the specification finds |

## Left out

- Paging.Machine.MapPage: assumes no 1 GiB or 2 MiB entry on the walk of the page; the code would take such an entry for a table, and of that only `PageTables.LargePageStays` speaks.
- Paging.Machine.UnmapPage: the same assumption.
- Paging.Machine.EnsureWalk: the same assumption.
- Phys.FrameAllocator.Init: the counter wraps below zero; a build with overflow checks stops instead.
- UserSpace.UserSpaces.MapUserPages: assumes a range below 2^47; above it the code writes tables that all address spaces share.
- Loader.LoadPe: assumes that headers and sections lie below 2^47, for the same reason, and does not keep the subsystem and section names.
- Loader.LoadRawBinary: assumes that the code ends below 2^47.
- Loader.LoadedSectionMatchesFile: speaks of page-aligned, page-disjoint sections below the stack; what overlapping ones show is in `Loader.LoadPe`.
- Objects.RunKeepsInv: assumes fewer than 2^32 references to one object, and callers that release only references they hold.
- Objects.FailedOpenChangesNothing: assumes the same bound, because the count wraps.
- ObjectManager.NtCreateFile: of the arguments only access, the null name and the status block are modelled; the others are unused in the code.
- KernelStacks.RunKeepsStacksApart: assumes that a spawn finds the three frames after the lowest free one free, and that frames of stacks are not released; `KernelStacks.StackIsOwn` says what happens otherwise.
- Fairness.EveryoneRunsWithinTeamSize: speaks of runs of ticks, with the team always ready.
- Context.SwitchOutAndBack: assumes that each thread writes only its own stack and leaves room for the seven words of a switch.
- ThreadTable.Scheduler.SpawnKernelThreadWithPriority: of the process table only the next id and the thread count of process 0 are modelled; `spawn_kernel_thread` is this call at normal priority.
- Kmalloc.RunKeepsLedger: assumes that successful allocations get consecutive frames and a table slot; `Kmalloc.MallocThenFree` says what happens otherwise.
- Drivers.RunKeepsBinding: assumes devices that arrive unbound and probes that always answer alike and change nothing.
- Vfs.FileSystem.Create: operations of symbolic links, devices and pipes do nothing, as their tables are never set.
- Multiboot.TagIterator.Next: assumes 30 readable bytes past the end of the structure.
- Isolation.SpaceShowsItsOwnMappings: speaks of the effects that the contracts of the two calls state, between states that satisfy `UserSpaces.Valid`; `Isolation.Perform` supplies such runs.
- The TLB, CR3 loads, the no-execute, cache and accessed bits, and the access checks of the processor.
- Bits of entries and characteristics are read and built by arithmetic instead of masks.
- `create_process`, `jump_to_usermode`, `recovery_*` and the boot checks themselves; what checks and recoveries answer is a parameter.
- Inode numbers, the superblock index and operations in inodes and entries, `ramfs_lookup`, `ramfs_free_inode` (never called).
- `find_cmdline`, `thread_count`, `list_threads`, `runtime_health_check`: reading only, no new law.
- The fixed-status stubs of ntapi.rs (virtual memory, wait, delay, query, terminate); the `handle_count` field, which no call changes.
- Locks and memory ordering: every public call is one step.
- Interrupt set-up, port I/O, PCI, screen, keyboard, serial line, MMIO and delays of the Linux shim.
- All printing.
