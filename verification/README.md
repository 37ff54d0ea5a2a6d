# JOS: proofs about the kernel, its library and its file server

JOS is a small operating system: a kernel for several CPUs, a user library and a
file server.  This project models its most involved parts in Dafny and proves
what their comments and tests promise.  `dafny verify dfyconfig.toml` checks all of it.

| file | what it models |
|---|---|
| `Wrappers.dfy` | the `Option` datatype |
| `Basics.dfy` | datatypes, constants and error codes shared by the kernel modules |
| `Paging.dfy` | physical pages, reference counts, the free list, two-level page tables, the making and freeing of address spaces |
| `EnvIds.dfy` | how the ids of one slot of `envs[]` follow each other |
| `Environments.dfy` | the environment table, the system calls on pages, environments and messages, and the choice of the current environment, over `Paging` |
| `UserMemory.dfy` | the check of a range of user addresses, and the allocation of one, over `Paging` |
| `CowFork.dfy` | copy-on-write fork and its page-fault handler, one system call at a time and with any number of environments forking at once, proved to refine a fork that copies every page |
| `KernelSpaces.dfy` | that the page calls of `Environments` do what `CowFork` takes them to do |
| `Scheduler.dfy` | the round-robin search of `sched_yield` |
| `Smp.dfy` | the lock, kernel entry and exit, scheduling, environment life cycle and blocking IPC on any number of CPUs |
| `FileSystem.dfy` | the block bitmap, the block map of a file, read, write, truncate and remove |
| `Paths.dfy` | directories, path names, open, create and remove by path |
| `BlockCache.dfy` | the demand-paged write-back block cache and `fs_sync` |
| `CachedFiles.dfy` | the accesses of `FileSystem` to a file's blocks, made through `BlockCache` |
| `Format.dfy` | the tool that makes the initial image |
| `StabSearch.dfy` | the binary search of the symbol tables |
| `SpawnImage.dfy` | the first stack page of a new program and the loading of an ELF segment |

How the parts are modelled:

- Code that updates fields, arrays and lists in place is a class with methods: the
  kernel's page and environment tables, address spaces, the file server, the block
  cache, the image being formatted.  Each method states its new state.
- Concurrency is a state machine on values (`Smp`).  One step is one access to the lock,
  one `xchg`, one trap or return, or all that one kernel entry does to `envs[]` and
  `cpu_env`; `MutualExclusion` shows that only the holder of the lock touches those.
  The model has any number of CPUs.  `CowFork` has the other interleaving, that of user
  programs between each other's system calls: where each of them is in `fork` or in the
  page-fault handler is part of the state, and a run is any sequence of their moves.
- A `panic` ends a run: methods say so with a result `ok == false`, or with a
  constructor of their result type, and say exactly when that happens.
- Choices that the code does not make itself are inputs or arbitrary: which call of a user
  program runs out of memory, who moves next, what an uncleared block holds.
- The ghost fields of the classes (`maps`, `tabs`, `dirs`, `owner`, ...) are the meaning
  of the real ones; `Valid()` ties them together.

Where the code differs from its own comments, the model follows the code:

- `alloc_block`'s failure is tested with `< 0` on an unsigned variable, so a full disk
  ends in `diskaddr`'s panic and not in `-E_NO_DISK` (Working/lab/fs/fs.c:158, 195);
  `FullDiskPanics` shows it for every size of disk.
- `sys_ipc_try_send` returns `-E_INVAL`, not `-E_NO_MEM`, when mapping the page needs
  memory that is not there (kern/syscall.c:458-462).
- `sys_env_set_status` by an environment on itself, to RUNNABLE, leaves it RUNNABLE while a
  CPU runs it, if no other is RUNNABLE, because `env_run` compares ids first
  (kern/env.c:714-723); `SetStatusSafeIff` says exactly when that call is safe.
- `stab_binsearch` goes wrong next to an entry at the address plus one
  (kern/kdebug.c:84-90); `RightIffNoClash` says exactly when, `TwoNeighboursFail` is the
  smallest case.
- `stab_binsearch` reports an address below every entry as contained
  (kern/kdebug.c:93-102); `EmptyIffNoEntry` says exactly when its bracket is empty.
- An argument list so large that an address wraps below 0 passes `init_stack`'s check
  (Working/lab/lib/spawn.c:206); `CheckRightIff` says exactly when the check is right.
- `user_mem_check` computes the end of its range in 32 bits (kern/pmap.c:721);
  `TestRightIff` says exactly when that is the documented test, and `WrapPasses` gives a
  range that is accepted whatever is mapped.
- `region_alloc` steps by one byte and compares addresses as signed integers
  (kern/env.c:428-431), so it does 4096 times the work, needs one free page more than the
  region does (`EnoughWhenEmpty`), and skips a region that spans address 0x80000000.
- `fsformat` given no files makes an image whose root directory has a block that the
  bitmap marks free (Working/lab/fs/fsformat.c:172-175).  Given a file of fewer than ten
  blocks whose name has more than 136 + 4 * blocks characters, it leaves the end of the
  name in slots that the file does not use (Working/lab/fs/fsformat.c:164, 140-146).
  `MakeImage` proves that the image is well formed iff neither happens.

## Model

| member | source | states |
|---|---|---|
| `Paging.TranslateIsLookup` | kern/pmap.c:444-480 | the two-level walk of the paging hardware (Intel SDM Volume 3A, section 4.3) gives, for every directory and user page, exactly the entry of a finite map, or nothing |
| `Paging.PhysMem.PageInit` | kern/pmap.c:298-355 | the reserved pages have count 1, and the free list holds every other page exactly once, highest first |
| `Paging.PhysMem.PageAlloc` | kern/pmap.c:369-393 | takes the first page of the free list with count 0, zeroed on request; none exactly if the list is empty; all counts stay exact |
| `Paging.PhysMem.PageFree` | Working/lab/kern/pmap.c:391-410 | puts an unreferenced page back; the two panics cannot fire |
| `Paging.PhysMem.PageDecref` | kern/pmap.c:415-420 | one reference less, and the page is freed exactly when it was the last |
| `Paging.PhysMem.PgdirWalk` | kern/pmap.c:444-480 | a table for the page, allocated on demand; no mapping of any directory changes, and a failed walk changes nothing |
| `Paging.PhysMem.InstallTable` | kern/pmap.c:455-471 | a zeroed page becomes a table of one directory and counts as referenced once |
| `Paging.PhysMem.PageLookup` | kern/pmap.c:580-597 | the page mapped there and its entry, exactly when the map has one |
| `Paging.PhysMem.PageRemove` | kern/pmap.c:614-630 | deletes that one mapping; the page loses one reference and is freed on the last; no other count changes |
| `Paging.PhysMem.PageInsert` | kern/pmap.c:546-567 | the map gains exactly this mapping with the given permissions, also when the same page is inserted again where it was mapped only once; the free list loses the page of a new table and gains the page that was mapped there exactly if that was its last use; fails exactly if a table is needed and no page is free, and then changes nothing |
| `Paging.PhysMem.ReplacePte` | kern/pmap.c:555-564 | counting the new reference before dropping the old one never frees the page being inserted |
| `Paging.PhysMem.NewDirectory` | kern/env.c:302-338 | an address space with no user mapping and the kernel's entries above UTOP; fails exactly if no page is free |
| `Paging.MappingsOfUpdate` | kern/pmap.c:546-567 | replacing a mapping moves exactly one reference from the old page to the new one |
| `Paging.StoreEntry` | kern/pmap.c:560-562 | storing one table entry changes one translation of one directory |
| `Paging.WidenPde` | kern/pmap.c:564 | widening the permissions of a directory entry changes no translation |
| `Paging.AddTable` | kern/pmap.c:463-467 | a new zeroed table changes no translation |
| `Paging.RemoveTable` | kern/env.c:624-626 | dropping a directory entry whose table maps nothing changes no translation |
| `Paging.PhysMem.UnmapTable` | kern/env.c:618-622 | the inner loop unmaps every page under one directory entry and nothing else |
| `Paging.PhysMem.FreeTables` | kern/env.c:606-627 | the outer loop gives back every mapping and every table of the directory |
| `Paging.PhysMem.FreeAddressSpace` | kern/env.c:606-632 | the free list gains exactly the directory, its tables and the data pages all of whose mappings were in it; every other page's count drops by its number of mappings there; no other directory's mappings change |
| `Paging.ReleasedExactly` | kern/env.c:590-638 | exact reference counts before and after a directory is dropped determine which pages become free and every other count |
| `Paging.AllMappingsIn` | kern/env.c:618-622 | a data page is given back iff all its mappings are in the dropped directory |
| `Paging.SoleIsLast` | kern/pmap.c:415-420 | a data page has count 1 iff it is mapped at one place only |
| `EnvIds.NthIdClosed` | kern/env.c:363-366 | the n-th id of a slot in closed form: a cycle of 2^19 - 1 generations, counting the 32-bit wrap |
| `EnvIds.IssuedIdIsWellFormed` | kern/env.c:217-220 | every issued id is positive, fits envid_t and carries its slot in the low ten bits |
| `EnvIds.IdReusedIff` | kern/env.c:363-366 | two allocations of a slot get the same id iff their distance is a multiple of 2^19 - 1 |
| `EnvIds.IdsOfSlotsDiffer` | kern/env.c:363-366 | no two slots are ever given the same id |
| `Environments.Kernel.EnvInit` | kern/env.c:117-133 | every slot is free, with id 0, and on the free list once, in the order of the array |
| `Environments.Kernel.Envid2Env` | kern/env.c:75-109 | an id other than 0 is resolved iff there is a live environment with that id, which the caller may manage if asked to check; there is only one, and that is the result; 0 is the caller; otherwise -E_BAD_ENV |
| `Environments.Kernel.LookUpOldId` | kern/env.c:90-97 | the id of the n-th allocation of a slot is resolved iff the slot is in use and the allocations since then are a multiple of 2^19 - 1 |
| `Environments.LiveIdsDistinct` | kern/env.c:363-366 | environments that exist have different ids |
| `Environments.Kernel.EnvAlloc` | kern/env.c:348-411 | takes the first free slot with a new id and an empty address space; -E_NO_FREE_ENV or -E_NO_MEM exactly when there is no slot or no page, changing nothing |
| `Environments.Kernel.EnvFree` | kern/env.c:590-638 | the slot goes to the front of the free list, and memory is given back exactly as the address space owned it |
| `Environments.Kernel.SysPageAlloc` | kern/syscall.c:242-284 | the result and its order of tests; success maps a fresh page at one place; failure changes no translation and leaks no page |
| `Environments.Kernel.SysPageMap` | kern/syscall.c:302-352 | the result and its order of tests; success adds exactly one mapping of the source's page and never grants write access to a read-only page |
| `Environments.Kernel.SysPageUnmap` | kern/syscall.c:361-376 | success removes exactly one mapping |
| `Environments.Kernel.SysIpcTrySend` | kern/syscall.c:416-482 | which error for which arguments and state, field by field: a successful send gives the waiting receiver the value, the sender's id and the permissions of the page (or none), makes it RUNNABLE and maps at most that one page; a failed one changes no state, also when mapping the page runs out of memory; a read-only page is never sent writable |
| `Environments.Kernel.SysIpcRecv` | kern/syscall.c:495-517 | the caller waits, not runnable, with its destination recorded; -E_INVAL exactly for an unaligned destination below UTOP |
| `Environments.Kernel.SysExofork` | kern/syscall.c:151-172 | a child that is not runnable, with a new id and an empty address space |
| `Environments.Kernel.EnvRun` | kern/env.c:693-730 | env_run, which compares ids, switches exactly if the environment is another one, and then that one is RUNNING and the old one RUNNABLE if it was RUNNING |
| `Environments.Kernel.SchedYield` | kern/sched.c:78-107 | the first RUNNABLE environment in circular order becomes current and RUNNING, and the one before it RUNNABLE if it was RUNNING; with none the current one goes on if it is RUNNING, and otherwise there is none |
| `Environments.Kernel.EnvDestroy` | kern/env.c:645-662 | an environment that runs elsewhere becomes DYING with its memory untouched; any other is freed with its memory, is not current afterwards, and no other environment changes but one that then becomes current and RUNNING |
| `Environments.Kernel.SysEnvSetStatus` | kern/syscall.c:181-200 | the exact result, and exactly that status changes |
| `Environments.Kernel.StartFirst` | kern/init.c:56-79 | after boot, one creation and one yield make the first program current, RUNNING, with id 4096 |
| `Environments.Kernel.ValidIsConsistent` | kern/pmap.c:369-420 | the kernel's invariant, spelled out: every count is the number of mappings, directory entries and env_pgdir pointers that name the page, and a free page has count 0 |
| `Environments.Kernel.Step` | kern/syscall.c:124-517 | every one of the modelled calls, and every creation and yield, keeps the kernel's invariant and leaves a current environment that exists, or none |
| `Environments.Kernel.Run` | kern/syscall.c:124-517 | from boot or from any valid state, after any run of these calls, creations and yields, counts and free lists are exact and every translation is the map's; a run goes on when the current environment has destroyed itself, passes over calls that nobody is there to make, and stops only where a 16-bit count would wrap |
| `KernelSpaces.PageAlloc` | kern/syscall.c:242-284 | seen as one map from environment and page, sys_page_alloc does exactly what copy-on-write fork takes it to do |
| `KernelSpaces.PageMap` | kern/syscall.c:302-352 | and so does sys_page_map |
| `KernelSpaces.PageUnmap` | kern/syscall.c:361-376 | and so does sys_page_unmap |
| `KernelSpaces.SpaceUpdate` | kern/pmap.c:546-567 | a new entry in the tables of one environment changes one page of that environment and of no other |
| `UserMemory.UserMemCheck` | kern/pmap.c:715-763 | succeeds iff every page up to the end it computes is below ULIM and has the permissions; otherwise gives the first address that may not be used |
| `UserMemory.TestRightIff` | kern/pmap.c:720-721 | that is the documented test of the whole range iff the end of the range does not wrap in 32 bits, or wraps so far that the first page is still tested and that page may not be used |
| `UserMemory.WrapPasses` | kern/pmap.c:720-721 | a range that wraps and is accepted whatever is mapped: 0xfffff000 bytes from address 0x1000 |
| `UserMemory.WrappedRange` | kern/pmap.c:720-721 | where the computed end of a wrapping range lies |
| `UserMemory.RegionAlloc` | kern/env.c:420-438 | it does not panic iff a free page is left after each page of the region, counting new tables and the old pages that are freed; then every page that [va, va + len) touches has a frame of its own and no other mapping has changed, although the result of page_insert is not tested; a region across the middle of the address space is not allocated at all |
| `UserMemory.AllocByte` | kern/env.c:431-437 | one turn: a new frame at the page, with the exact number of free pages left, or no memory |
| `UserMemory.EnoughWhenEmpty` | kern/env.c:420-438 | where nothing is mapped yet, the region needs a free page for each page, one for each missing table, and one to spare |
| `UserMemory.FirstTurn` | kern/env.c:431-437 | which pages of a region need a table and which give a page back, from the mappings at the start |
| `CowFork.AddressSpaces.Run` | Working/lab/lib/fork.c:14-185 | any run of a tree of programs in which each move is what one environment does up to its next system call (stores, forks, page faults, page calls and exits, of any number of environments that may all be forking at once) is a run of the specification in which fork copies every page; it ends early only at a call that needs memory and gets none |
| `CowFork.ForkIsEager` | Working/lab/lib/fork.c:129-185 | in every such run, whatever the others do meanwhile, a fork that comes to starting its child has given it every page of the parent, each as it was at an instant inside that page's own duppage, with the parent's right to store, and an exception stack whose every byte is 0; the parent has the pages and rights it had |
| `CowFork.AddressSpaces.ForkAlone` | Working/lab/lib/fork.c:129-185 | with nobody else moving and enough memory, fork comes to its end and the child runs: it has exactly the parent's pages, bytes and rights to store, an exception stack whose every byte is 0, and nothing of any other environment has changed |
| `CowFork.QuietForkIsCopy` | Working/lab/lib/fork.c:129-185 | if the parent does not store meanwhile, the child is an exact copy of the parent below the exception stack |
| `CowFork.ForkEnds` | Working/lab/lib/fork.c:150-161 | a fork takes fewer than 3 * (PGNUM(UTOP) + 1) steps of its own, however it is interleaved |
| `CowFork.EventOwner` | Working/lab/lib/fork.c:14-185 | an environment changes what is seen of its own pages and of those of the child it is making, and of no other's |
| `CowFork.AddressSpaces.Step` | Working/lab/lib/fork.c:14-185 | any one move keeps the invariant of the page tables and is one step of the specification; it fails iff it makes a call that needs memory and is given none, and then changes nothing |
| `CowFork.AddressSpaces.ForkStep` | Working/lab/lib/fork.c:148-184 | any one step of fork is a step of the eager fork, and fails iff its call gets no memory: never with a bad argument |
| `CowFork.AddressSpaces.LoopHead` | Working/lab/lib/fork.c:150-160 | a page that the parent does not see, and the exception stack, are passed over; any other is duplicated, as one that may be stored to or not |
| `CowFork.AddressSpaces.DupChild` | Working/lab/lib/fork.c:92-103 | duppage's call for the child is seen as a copy, unless the parent's page may still be stored to in place |
| `CowFork.AddressSpaces.DupParent` | Working/lab/lib/fork.c:95-97 | its call for the parent is seen as the copy in that case, and otherwise not at all |
| `CowFork.ChildMappedSeen` | Working/lab/lib/fork.c:92-94 | mapping the child is a copy, as far as programs can tell, unless the parent's page can still be stored to in place |
| `CowFork.ParentMarkedSeen` | Working/lab/lib/fork.c:95-97 | re-marking the parent ends the sharing of a page that can be stored to, and that is when the child has its copy |
| `CowFork.AddressSpaces.GiveStack` | Working/lab/lib/fork.c:163-166 | the child gets an exception stack that it may store to and whose every byte reads as 0 |
| `CowFork.AddressSpaces.StoreByte` | Working/lab/lib/fork.c:28-34 | a store changes one byte that programs see, or enters the page-fault handler exactly if the page is copy-on-write |
| `CowFork.AddressSpaces.HandlerStep` | Working/lab/lib/fork.c:36-51 | no step of the handler is seen by any program, whatever runs between them; it fails iff a call gets no memory, and when it is over the page can be stored to |
| `CowFork.PageReplacedUnseen` | Working/lab/lib/fork.c:46-48 | a private writable copy of a shared page changes no one's bytes and no one's right to store |
| `CowFork.AddressSpaces.StoreAlone` | Working/lab/lib/fork.c:14-67 | a store with its fault and its second try, if nobody else moves, changes exactly that byte; it fails iff the handler gets no memory |
| `CowFork.StoreInPlace` | Working/lab/lib/fork.c:90-98 | a store to a page that is writable in place is seen at that page and nowhere else |
| `CowFork.SharedPagesAreReadOnly` | Working/lab/lib/fork.c:90-98 | two environments share no page that either can store to, except a parent and the child it is making, between the two calls of duppage for that page |
| `CowFork.ReversedOrderShares` | Working/lab/lib/fork.c:92-97 | why the child comes first: in the other order a fault of the parent between the two calls leaves a page that the parent can write mapped in the child |
| `FileSystem.InUseIffNamedOnce` | Working/lab/fs/fs.c:56-78 | in a well-formed image a block is marked in use iff it is reserved or named by a slot, and no two slots name the same block |
| `FileSystem.FileServer.AllocBlock` | Working/lab/fs/fs.c:56-78 | the lowest free block below 32 * (nblocks / 32), marked in use; nothing exactly if there is none |
| `FileSystem.FileServer.FileBlockWalk` | Working/lab/fs/fs.c:143-171 | the slot of a block, with an indirect block allocated and cleared if asked for; no file's contents change |
| `FileSystem.FileServer.FileGetBlock` | Working/lab/fs/fs.c:182-204 | the disk block of a file block, allocated if missing; succeeds iff the missing block and a missing indirect block can be had; other blocks and files keep their contents; the slots past the end of the file stay empty iff the block asked for is inside the file |
| `FileSystem.GrantTails` | Working/lab/fs/fs.c:193-199 | giving a file a block keeps the slots past its end empty iff the block is inside the file |
| `FileSystem.FileServer.FileRead` | Working/lab/fs/fs.c:366-389 | succeeds iff there are enough free blocks for the holes in the range; then count bytes if the file has as many from offset on, those up to its end if it has fewer, and none past the end, each the file's byte at its position; a hole read gets blocks, and nothing else changes |
| `FileSystem.FileServer.ReadToEnd` | Working/lab/lib/fd.c:220-235 | reading on from the start, any positive number of bytes at a time, until a read returns nothing gives exactly the file's bytes, as many as its size says |
| `FileSystem.FileServer.FileWrite` | Working/lab/fs/fs.c:395-417 | succeeds iff there are as many free blocks as the range is missing; then the range holds the data, the size is the larger of the old size and the end of the range, every other byte of the file and all other files are as before, across block boundaries and the switch to the indirect block |
| `FileSystem.FileServer.WriteThenRead` | Working/lab/fs/fs.c:366-417 | with enough free blocks for what the range is missing, and only then, reading back what was written gives the same bytes |
| `FileSystem.FileServer.FileFreeBlock` | Working/lab/fs/fs.c:421-434 | exactly that block of that file becomes free, if it was there |
| `FileSystem.FileServer.FileTruncateBlocks` | Working/lab/fs/fs.c:445-461 | the blocks past the new end, and the indirect block once unneeded, are given back; everything else stays |
| `FileSystem.FileServer.FileSetSize` | Working/lab/fs/fs.c:464-472 | the contents up to the shorter size are kept, and the image stays well formed: nothing leaks |
| `FileSystem.FileServer.RemoveFile` | Working/lab/fs/fs.c:505-508 | every block of the file is given back, and other files do not change |
| `FileSystem.Grant` | Working/lab/fs/fs.c:193-199 | a free block given to an empty slot: each used block still has exactly one owner |
| `FileSystem.Release` | Working/lab/fs/fs.c:429-432 | a block taken from its slot: each used block still has exactly one owner |
| `FileSystem.PatchedBlock` | Working/lab/fs/fs.c:407-414 | copying data into one block changes just those bytes of the file |
| `FileSystem.SpareNext` | Working/lab/fs/fs.c:376-417 | one turn of the loops of file_read and file_write spends exactly the blocks that its part of the range was missing |
| `FileSystem.HeldMissesNothing` | Working/lab/fs/fs.c:366-417 | a range that holds bytes needs no block |
| `FileSystem.FileServer.Step` | Working/lab/fs/fs.c:182-511 | any one operation on a regular file succeeds iff there are as many free blocks as it takes, does to its file what it should, keeps the image well formed and leaves other files alone |
| `FileSystem.FileServer.Run` | Working/lab/fs/fs.c:182-511 | after any run of operations on regular files every used block has exactly one owner and nothing is allocated past the end of a file; regular files that the run does not name keep their contents; only a full disk stops a run |
| `Paths.FirstComponent` | Working/lab/fs/fs.c:299-308 | the name that the scan takes off a path is its first component |
| `Paths.SlashSkipped` | Working/lab/fs/fs.c:267-273 | slashes in front of a path do not change its components |
| `Paths.ComponentsOfJoin` | Working/lab/fs/fs.c:281-329 | splitting a path made of components gives back the components |
| `Paths.LookupFirst` | Working/lab/fs/fs.c:210-234 | dir_lookup's result is the first record of the directory with the name, and nothing iff there is none |
| `Paths.DirLookup` | Working/lab/fs/fs.c:210-234 | the two loops compute that lookup and change nothing on the disk |
| `Paths.WalkPath` | Working/lab/fs/fs.c:281-329 | walk_path is component-wise resolution of the path, with repeated slashes collapsed |
| `Paths.PathsUnique` | Working/lab/fs/fs.c:281-329 | no two component sequences lead to the same record |
| `Paths.ResolveSnoc` | Working/lab/fs/fs.c:299-323 | resolving one component more |
| `Paths.FileOpen` | Working/lab/fs/fs.c:358-362 | the record the path resolves to, or the error, with nothing changed |
| `Paths.FileCreate` | Working/lab/fs/fs.c:337-354 | succeeds iff the directory is there and the file is not; then the path leads to the new, empty record, every other path leads where it did, and names stay unique |
| `Paths.Created` | Working/lab/fs/fs.c:348-350 | naming an unused record keeps the tree well formed, makes the path lead to it and moves no other path |
| `Paths.FileRemove` | Working/lab/fs/fs.c:496-511 | afterwards the path gives -E_NOT_FOUND, every other path leads where it did, and no other file's contents change |
| `Paths.Removed` | Working/lab/fs/fs.c:505-508 | clearing the name and size of a regular file keeps the tree well formed and removes exactly its path |
| `Paths.WalkKept` | Working/lab/fs/fs.c:299-323 | a walk that does not take the edited path is not affected by the edit |
| `Paths.RegularKeepsPaths` | Working/lab/fs/fs.c:395-417 | reading, writing and resizing regular files moves no path |
| `Paths.TreeStays` | Working/lab/fs/fs.c:337-354 | a change of one record keeps the directory tree well formed and its names unique |
| `Paths.Serve` | Working/lab/fs/fs.c:182-511 | one request changes what users see exactly at its path, and fails iff it takes more blocks than are free |
| `Paths.ReadsLastWrite` | Working/lab/fs/fs.c:366-417 | in any run, a read returns what was last written to the range at that path |
| `Paths.FileLife` | Working/lab/fs/fs.c:337-511 | a file created at a free path of an existing directory, written, read back by path and removed: it works iff there are as many free blocks as the data takes with its indirect block, the read gives what was written, the path is gone in the end, and exactly the blocks are free that were free before |
| `Paths.SeenOverRun` | Working/lab/fs/fs.c:182-511 | what is at a path (the size and bytes of a regular file, the type and size of a directory) stays as long as no request is about it |
| `Paths.ServeAll` | Working/lab/fs/fs.c:182-511 | any run of requests by path is a run on a map from paths to files: each creation adds an empty file at its path, each removal takes one away, each read, write and resize does what it should to the file at its path, and nothing else is seen to change; block ownership, the tree and unique names hold; the run stops only at a request that takes more blocks than are free |
| `BlockCache.Cache.PgFault` | Working/lab/fs/bc.c:30-73 | the block is cached and clean and nobody sees a difference; the nested faults on the bitmap end; the panic happens iff the bitmap marks the block free |
| `BlockCache.MarkedFreeIsBit` | Working/lab/fs/fs.c:33 | the bit of a block, read from a 32-bit word by the code, is bit b % 8 of byte b / 8 of the bitmap blocks, the lowest first, and 1 means free |
| `BlockCache.Cache.BlockIsFree` | Working/lab/fs/fs.c:28-36 | the bit of the block in the bitmap as seen through the cache |
| `BlockCache.Cache.ReadByte` | Working/lab/fs/bc.c:5-11 | the byte of the view, if the block may be used |
| `BlockCache.Cache.WriteByte` | Working/lab/fs/bc.c:5-11 | exactly that byte of the view changes |
| `BlockCache.Cache.FlushBlock` | Working/lab/fs/bc.c:82-103 | the disk has the block as seen; no other block of the disk and nothing in the view changes |
| `BlockCache.Cache.FsSync` | Working/lab/fs/fs.c:514-520 | the disk agrees with the view on every block from 1 to s_nblocks - 1 |
| `BlockCache.Cache.SyncThenRestart` | Working/lab/fs/fs.c:514-520 | a new server that mounts the disk after fs_sync sees what the old one saw |
| `BlockCache.Cache.Run` | Working/lab/fs/bc.c:30-103 | any run of reads, writes, flushes and syncs behaves as one plain array of blocks; only a forbidden access stops it |
| `BlockCache.Cache.constructor` | Working/lab/fs/bc.c:135-140 | a server that starts sees the disk it finds, with nothing cached |
| `BlockCache.Cache.Mount` | Working/lab/fs/fs.c:116-124 | setting super and bitmap changes nothing that is seen |
| `BlockCache.Cache.BootAndRun` | Working/lab/fs/bc.c:30-103 | from the start on any disk, any run behaves as one plain array of the disk's blocks |
| `BlockCache.Cache.FullDiskPanics` | Working/lab/fs/bc.c:5-11 | -E_NO_DISK as an unsigned number is not below 0, and is refused as a block number on every disk |
| `BlockCache.Cache.IdeRead` | Working/lab/fs/bc.c:60-62 | the block's eight sectors, in order |
| `BlockCache.Cache.IdeWrite` | Working/lab/fs/bc.c:98-99 | the block's eight sectors hold the page, and no other sector changes |
| `BlockCache.EvictKeepsIff` | Working/lab/fs/bc.c:120-123 | dropping a page goes unseen iff it equals the disk, as every clean page does |
| `BlockCache.FlushKeeps` | Working/lab/fs/bc.c:98-102 | writing a page back and marking it clean changes nothing in the view |
| `BlockCache.LoadKeeps` | Working/lab/fs/bc.c:56-66 | loading a block clean changes nothing in the view |
| `CachedFiles.NamedMayBeUsed` | Working/lab/fs/bc.c:30-73 | on a well-formed image no access to a block that a slot names panics in the block cache, and no check of the bitmap does |
| `CachedFiles.BlockIsFree` | Working/lab/fs/fs.c:28-36 | block_is_free through the cache says what the disk's bitmap says |
| `CachedFiles.ByteChanged` | Working/lab/fs/fs.c:407-414 | a changed byte of a file's block in the cache is that change of the disk, and of nothing else that the cache shows |
| `CachedFiles.FindBlock` | Working/lab/fs/fs.c:143-204 | the block map read through the cache, indirect block included, names the block that the disk does |
| `CachedFiles.ReadRange` | Working/lab/fs/fs.c:366-389 | reading bytes that a file has through the cache never panics, returns what FileRead does and changes nothing seen |
| `CachedFiles.WriteRange` | Working/lab/fs/fs.c:395-417 | writing them through the cache never panics, keeps the image well formed and changes exactly those bytes |
| `CachedFiles.WriteRestartRead` | Working/lab/fs/fs.c:514-520 | what is written to a file is read back, through a cache that starts empty, by a server that mounts the disk after fs_sync |
| `Format.MakeImage` | Working/lab/fs/fsformat.c:218-243 | an image is made iff the disk has 4 to 1024 blocks, there are at most 128 files, each is below the largest size, and their blocks and the directory's leave one free; it is well formed, and then has every file, iff there is a file and every file has NDIRECT blocks or a name of at most 136 + 4 * blocks characters (host names have up to 255); otherwise no assignment of owners makes it well formed |
| `Format.NamesDecide` | Working/lab/fs/fsformat.c:134-166 | strcpy copies a name past f_name: the disk is as if it had been cut off iff every name ends before the slots that its file leaves unused, and otherwise it is not well formed |
| `Format.ResidueSpoils` | Working/lab/fs/fsformat.c:164 | a name that does not fit leaves a slot past the end of its file set |
| `Format.NoResidue` | Working/lab/fs/fsformat.c:134-148 | what a name that fits leaves in the record is stored over by finishfile |
| `Format.LongNameSpills` | Working/lab/fs/fsformat.c:164 | an empty file with a name of 137 characters: the image is made, and its record's first slot holds the last character |
| `Format.NamesFreeBlock` | Working/lab/fs/fsformat.c:170-178 | a disk on which a slot names a block that the bitmap marks free is not well formed, whoever owns what; fsformat given no files makes one |
| `Format.Image.WriteFile` | Working/lab/fs/fsformat.c:180-209 | done iff the file is below the largest size and its blocks leave one free; the file's blocks hold its bytes, padded with zeros, its name is added to those whose copies MakeImage accounts for, and other files do not change |
| `Format.Image.FinishFile` | Working/lab/fs/fsformat.c:134-148 | block i of the file is start + i, through the direct and the indirect slots, and every used block has one owner; fails iff it needs an indirect block and none is left |
| `Format.Image.FinishDir` | Working/lab/fs/fsformat.c:170-178 | done iff the directory's blocks leave one free; the records move to blocks of the directory's own, and the files' blocks move with them |
| `Format.MoveOwned` | Working/lab/fs/fsformat.c:174 | moving the records keeps every block's ownership |
| `Format.Image.FinishDisk` | Working/lab/fs/fsformat.c:122-132 | exactly the blocks before diskpos are marked in use |
| `Format.FinishedTree` | Working/lab/fs/fsformat.c:170-178 | the directory tree of the image is well formed if the names differ |
| `Format.FileFound` | Working/lab/fs/fsformat.c:180-209 | the file server finds each file by its name |
| `Format.WriteFiles` | Working/lab/fs/fsformat.c:236-237 | the loop over the files ends iff all of them fit |
| `Format.FormatAndServe` | Working/lab/fs/fsformat.c:218-243 | composed: if the files fit and their names are usable, the file server finds every one with its bytes at its path, and serves any run of requests from there |
| `Smp.MutualExclusion` | kern/spinlock.c:60-120 | in every state of every interleaving: at most one CPU is between lock and unlock, lock->cpu names only that CPU, no panic of the lock and no assertion on curenv fails, no two CPUs have the same environment, and a CPU in user mode runs an environment that is RUNNING or DYING |
| `Smp.AlwaysSafe` | kern/trap.c:295-354 | every state of every interleaving of any number of CPUs satisfies the invariant |
| `Smp.LockStepSafe` | kern/spinlock.c:60-120 | each access to the lock, each xchg, trap and return keeps the invariant |
| `Smp.KernelStepSafe` | kern/trap.c:316-354 | a whole kernel entry keeps the invariant under the two guards |
| `Smp.EnvRunSafe` | kern/env.c:693-725 | env_run, which compares ids, moves the CPU to one environment and releases the other |
| `Smp.HaltSafe` | kern/sched.c:112-154 | sched_halt keeps the invariant; it stays in the monitor iff every environment is free or cannot run, and otherwise leaves the CPU halted with no environment |
| `Smp.YieldSafe` | kern/sched.c:11-107 | sched_yield keeps the invariant, whichever branch it takes |
| `Smp.RunsIt` | kern/env.c:714-724 | env_run of a RUNNABLE environment: it runs, and the CPU's own becomes RUNNABLE if it was RUNNING |
| `Smp.YieldTakesNext` | kern/sched.c:85-95 | if anything is RUNNABLE, the CPU takes the first such environment after its own in circular order |
| `Smp.YieldStops` | kern/sched.c:97-141 | if nothing is, only the CPU itself changes: it goes on with its own environment if that is RUNNING, stays in the monitor if every environment is free or cannot run, and otherwise halts with none |
| `Smp.RoundRobin` | kern/sched.c:78-107 | in any interleaving, while an environment stays RUNNABLE and none that a CPU runs is freed, that CPU changes its environment at most as often as there are slots from its own to that one, fewer than NENV |
| `Smp.StepNearer` | kern/sched.c:85-95 | each step of the system leaves a CPU's environment as it is, or brings the CPU nearer to one that stays RUNNABLE |
| `Smp.DestroySafeIff` | kern/env.c:645-662 | env_destroy keeps the invariant iff the environment is not already dying |
| `Smp.SetStatusSafeIff` | kern/syscall.c:181-200 | sys_env_set_status keeps the invariant iff its target is the caller, not made RUNNABLE with no other RUNNABLE, or is another environment that is on no CPU and is not woken while it waits for a message |
| `Smp.SelfRunnableAlone` | kern/env.c:714-723 | how it fails on the caller: with nothing else RUNNABLE, env_run finds its id in place and leaves it RUNNABLE on a CPU |
| `Smp.KernelLeaves` | kern/sched.c:112-141 | every kernel entry ends in the monitor iff every environment is then free or cannot run; on the way to user mode with an environment that is RUNNING; or on the way to a halt, with none, nothing RUNNABLE and somebody RUNNING or DYING elsewhere |
| `Smp.MonitorMeansIdle` | kern/sched.c:117-129 | in every interleaving, a CPU is in the monitor only while every environment is free or cannot run |
| `Smp.CallDoes` | kern/syscall.c:151-200 | what each system call but send does to envs[] and where its CPU goes, field by field |
| `Smp.TrapRoundTrip` | kern/trap.c:295-354 | the whole way from user mode or a halt through the kernel and back: undisturbed, and with the lock free, it ends in user mode with an environment that is RUNNING or idle with none, the lock free again, unless every environment is free or cannot run |
| `Smp.EntryCompletes` | kern/trap.c:316-354 | progress: a CPU that traps while the lock is free and is not disturbed takes it in four steps, does what it came for in one, and has given it back two steps later, on its way to an environment that is RUNNING or to a halt with none, unless every environment is free or cannot run and it stays in the monitor |
| `Smp.FreeCurrentMid` | kern/trap.c:325-330 | a zombie is reaped on its own CPU, and nothing else notices |
| `Smp.IpcExactlyOnce` | kern/syscall.c:416-517 | in every state of every interleaving, arrivals and waits of an environment take turns, and its value, from and perm are those of its last arrival |
| `Smp.SendArrives` | kern/syscall.c:455-481 | a send to an environment that waits, of something it can take, arrives in that step with the sender's id, value and permissions, makes the receiver RUNNABLE, changes nothing else and lets the sender go on |
| `Smp.SendRefused` | kern/syscall.c:425-470 | any other send changes nothing |
| `Smp.StepEvents` | kern/syscall.c:416-517 | in any step, an arrival is recorded only for a send to a waiting environment, with the sender's id and what it sent, and a wait only for a receive |
| `Smp.AllocIpc` | kern/env.c:405-406 | a new environment starts with no messages, whatever its slot had |
| `Scheduler.SchedYield` | kern/sched.c:78-95 | the loop finds the first RUNNABLE slot after the current one in circular order, and nothing iff there is none |
| `Scheduler.CloserEachTime` | kern/sched.c:85-95 | while an environment is RUNNABLE, each choice of another one is strictly nearer to it |
| `Scheduler.ChosenInTime` | kern/sched.c:78-95 | an environment that stays RUNNABLE is chosen after fewer than NENV other choices, whatever happens to the rest of the table in between |
| `Scheduler.NothingIffNone` | kern/sched.c:85-106 | the search fails iff nothing is RUNNABLE |
| `StabSearch.StabBinsearch` | kern/kdebug.c:59-103 | the loops end and give the match and the bound before the next entry of the type |
| `StabSearch.SearchRight` | kern/kdebug.c:59-103 | the search is right on a window in which no entry is at addr + 1 when one is at addr |
| `StabSearch.RightIffNoClash` | kern/kdebug.c:84-90 | it is right on every window of a table iff there is no such pair of entries, and at the last address, where addr + 1 wraps, iff no entry is there; the one exception is stated |
| `StabSearch.NeighbourFails` | kern/kdebug.c:84-90 | the window between such a pair, on which it returns the second entry |
| `StabSearch.TwoNeighboursFail` | kern/kdebug.c:84-90 | the smallest such table: with functions at 100 and 101, the search for 100 returns the second |
| `StabSearch.WrapFails` | kern/kdebug.c:89 | the window of an entry at the last address, which the search loses |
| `StabSearch.TurnDecreases` | kern/kdebug.c:65-91 | why the main loop ends although an exact match may leave the interval unchanged |
| `StabSearch.EmptyIffNoEntry` | kern/kdebug.c:93-102 | on any table, in order or not, the bracket is empty iff the window has no entry of the type; the comment in the source promises it for every address without a match |
| `StabSearch.FinishRight` | kern/kdebug.c:93-102 | the last loop turns the invariant of the first into the result |
| `StabSearch.FindDown` | kern/kdebug.c:68-74 | the inner loop finds the last entry of the type not after the middle |
| `SpawnImage.InitStack` | Working/lab/lib/spawn.c:180-255 | -E_NO_MEM iff the 32-bit check fails; if the arguments fit and the page call succeeds, the child finds its arguments on the page |
| `SpawnImage.Fill` | Working/lab/lib/spawn.c:230-241 | the loop over the arguments and the words above the stack pointer: argc and the address of argv are at the initial stack pointer, lowest byte first |
| `SpawnImage.ChildFindsArguments` | Working/lab/lib/spawn.c:230-241 | decoding argc and argv at the initial stack pointer with child addresses gives the argument strings |
| `SpawnImage.RegionsDisjoint` | Working/lab/lib/spawn.c:194-202 | the two words, the pointers and the strings are disjoint and inside the page |
| `SpawnImage.CheckRightIff` | Working/lab/lib/spawn.c:204-207 | the check is right iff the address it computes does not wrap below 0 |
| `SpawnImage.HugeArgumentPasses` | Working/lab/lib/spawn.c:204-207 | an argument of four megabytes passes the check |
| `SpawnImage.AddressOfArgv` | Working/lab/lib/spawn.c:199-202 | the address of the pointer array in 32-bit arithmetic |
| `SpawnImage.Child.MapSegment` | Working/lab/lib/spawn.c:257-292 | done iff every page is below UTOP and what its turn needs can be had, and otherwise the first page that fails decides between an error and a panic; then for every k below memsz, byte va + k of the child is byte offset + k of the file if k is below filesz, and 0 otherwise (also past the end of the file); other pages do not change |
| `SpawnImage.Child.MapPage` | Working/lab/lib/spawn.c:273-290 | one page of the segment, blank or from the file, with the exact condition for each result |
| `SpawnImage.FirstFailure` | Working/lab/lib/spawn.c:273-290 | the first page at which something goes wrong decides the result |

## Left out

- Guards on the multiprocessor steps: `sys_env_set_status` and `env_destroy` are taken where the invariant survives them. `SetStatusSafeIff` and `DestroySafeIff` show that the guards shut out exactly the calls that break it.
- Paging.PhysMem.PageInsert: needs the page's count to be below 65535, because `pp_ref` is 16 bits wide and the code does not check it.
- CowFork.AddressSpaces.HandlerStep: the copy in `pgfault` is one step for other environments, and programs do not use PFTEMP themselves.
- KernelSpaces: links the mappings of the two models, call by call. The bytes of the frames are in `CowFork` only.
- Environments.Kernel.Run: one CPU; interrupts come between system calls as yields. `Smp` has the other CPUs.
- CowFork.AddressSpaces.Run: `sys_exofork` succeeds (`Environments` has its errors), a program calls `sys_page_alloc` and `sys_page_unmap` for its own memory only, and pages are shared only through fork. A panic of the library stops the run; a store that a program has no right to make changes nothing.
- FileSystem.FileServer.FileGetBlock: on a full disk the slot stays 0, while the source has stored the error code in `f_indirect` or `*blkno` when `diskaddr` panics (Working/lab/fs/fs.c:161-162, 198-202), so what `Run` says of the image at such a stop is about the blocks before that store. The block number is below NDIRECT + NINDIRECT; beyond that the source goes on with an uninitialised pointer, because it keeps the error in an unsigned variable.
- FileSystem.FileServer.FileSetSize: sizes are at most MAXFILESIZE and not negative; the source checks neither.
- Paths.FileCreate: the directory has an unused record. Growing a directory uses a block that is not cleared, so what its records then say is arbitrary.
- Paths.FileLife: the unused record that the file gets is that of a regular file; the source does not set the type of a record that it takes into use.
- Paths.FileRemove: regular files only. Removing a directory gives back its blocks but not those of the files in it.
- File data and file records: a directory's data block and the records in it are two views of one block in the source. In `FileSystem` the records are a map from their places, so operations of a run are on regular files, and what is seen of a directory is its type and size; reading one as bytes, as `ls` does, is not modelled.
- file_flush, and which blocks of `FileSystem` are on the disk at a given time: `BlockCache` shows that programs cannot tell, and that `fs_sync` brings the disk up to date.
- CachedFiles.WriteRange: over bytes that the file has. The blocks that a write allocates, and the bits and slots that go with them, are changed in `FileSystem` only; a file's record is given.
- BlockCache.Cache.PgFault: the superblock is cached before it is first used to check a block number, and its number of blocks does not change.
- Failures of the IDE disk: `ide_read` and `ide_write` succeed.
- Format.MakeImage: the buffer for the directory's records starts zeroed; host files are given as their names and contents, and reading them does not fail. A record keeps the first 128 characters of a longer name, where the source's f_name then has no end mark.
- SpawnImage.InitStack: the strings, the pointers and the two words take less than 2^32 bytes in all. The system calls after the page is filled only move it to the child.
- Smp.RoundRobin: a CPU whose environment is freed starts its next search at slot 0, so the bound starts again there.
- SpawnImage.Child.MapSegment: the segment ends below 2^32, filesz is at most memsz, and the file offset is at least the page offset of va, as the ELF format requires (System V gABI, chapter 5, Program Header).
- Smp: a state machine on values, since the steps of several CPUs interleave inside one function; what a kernel entry does to `envs[]` is one step of it, and the loop of `sched_yield` is the method `Scheduler.SchedYield`.
- Smp: memory. A message that carries a page either finds room for it or does not; `Environments` has the details.
- The initial program of an environment (`load_icode`), `sys_envreplace`, page-fault upcalls and trap frames: a kernel entry that only touches these is `Other` in `Smp`.
- Memory above UTOP: copied from `kern_pgdir` and not reference counted, so it is fixed here.
- The TLB, caches and memory ordering: `tlb_invalidate` does nothing, and steps are in one global order.
- The contents of data pages in `Paging` and `Environments`: only tables and directories have contents there; `CowFork` has the bytes.
- The second version of `page_init`, of the IPC calls and of `env_init` under Working/lab: the versions under kern are used.
- Guest environments and the hypervisor, device drivers, the console, the shell and the other user programs, `printf` and the string routines.
- File descriptors and the request loop of the file server.
