# A verified model of the edge-libos kernel core

edge-libos is a Linux-personality kernel for WebAssembly guests. This project models the parts of
it whose correctness is a matter of state rather than of host I/O, and proves what each of them
promises for every input, every reachable state or every run.

| file | what it models |
|---|---|
| `Arena.dfy`, `Allocator.dfy`, `MemorySyscalls.dfy` | the mmap allocator: best fit, carving, bump tail, sort and coalesce; arenas tiling linear memory; the syscalls that grow and zero memory |
| `SnapshotMemory.dfy`, `KernelSnapshot.dfy`, `Restore.dfy` | snapshot and restore: the sparse page overlay, the canonical flattening of kernel state, the three-step restore, and what it does to the allocator inside memory |
| `Futex.dfy` | FUTEX_WAIT and FUTEX_WAKE as a step system |
| `Descriptors.dfy` | the descriptor table, duplication, pipes shared through aliases, vectored I/O |
| `Paths.dfy` | lexical path resolution under a root, chdir, chroot |
| `ProcessLifecycle.dfy` | process numbers and the children table: fork, clone, exit, wait4 |
| `Resolver.dfy`, `ResolverCache.dfy` | the getaddrinfo marshaller, its reader, delivery to the guest, the TTL cache |
| `Dirents.dfy` | directory listings: records, getdents64, rewind |
| `Base.dfy`, `Bytes.dfy`, `Sorting.dfy` | shared types, byte codecs, a stable sort |

`dafny verify dfyconfig.toml` checks all of it.

## How to read it

State that the source updates in place is a class here; its methods are proved against functions or
predicates on values, and the theorems are lemmas about those. Three patterns recur.

- *Ghost accounting.* An arena carries the sets `Live` and `Pad`, a pipe table carries a log of
  bytes moved, a process table carries a log of events. No real field depends on them; `Valid()`
  ties them to the real fields, and every method keeps `Valid()`.
- *Steps and runs.* The futex table is a transition system (`State`, `Step`, `Next`); each class
  method is proved to be one `Next`, and `RunSafe` speaks about all runs. The process table replays
  its event log; `Accounts`, `ExactlyOneIff` and `ReapReports` speak about all logs.
- *Independent readers.* Each encoder (getaddrinfo list, directory records, memory pages, path
  strings) is paired with a reader written on its own, and a round trip connects the two.

Where the code does not meet a property one would expect, the model keeps the code's behaviour and
states exactly when the property holds:

- a futex waiter is counted out by the wake and again by its own release, so a counter can fall below
  the number parked (`ExactIff` says which step ends exactness), and a waiter can stay parked where no wake
  finds it (`WaiterCanBeLost`), for good (`LostForever`); it is lost if and only if a step removes
  the entry at its address while it stays parked (`LosesIff`, `LostIff`);
- `mmap` asks the allocator a second time even when the first answer was a placement, and the first
  placement then stays allocated, even when the call fails (`LeakOnSuccess`, `LeakOnFailure`);
  `Process.Mmap` states that this happens if and only if the first answer was a placement;
- `free` checks only arena bounds (`FreeOfNothing`); the arena stays consistent if and only if the
  range was live or padding (`Freed`, `Owned`);
- an exit signal for a child already reaped puts the entry back, so it can be reaped again
  (`ReapedTwice`); `ExactlyOneIff` gives the condition;
- `F_SETFD` does not look at the table, so the close-on-exec set stays within the open descriptors
  if and only if the descriptor is open or the bit is being cleared (`Process.SetFd`,
  `MarkOfNothing`);
- restoring pages into memory that is not zero leaves old bytes behind (`OldBytesSurvive`);
  `RestoreAgreesIff` gives the exact condition on the target;
- a snapshot keeps the allocator's high-water mark but not the memory size, so arenas can end up
  outside memory (`HighWaterCanBeLost`); `HighWaterSurvivesIff` and `FreezeRestore` give the
  condition, and `mmap` can then return a range outside memory, of which it zeroes nothing
  (`MmapOutside`);
- the resolver writes its result slot after the list, wherever the slot is (`SlotCutsList`); the list
  is intact if and only if the slot covers only zero bytes of it (`SlotOver`);
- a `getdents64` buffer can end inside a record (`CutBuffer`); `AllWholeIff` says when none of a
  sequence does.

One more fact a reader may not expect: standard input is the read end of the pipe that standard
output writes, so what is written to descriptor 1 is read back from descriptor 0 (`StdoutEchoes`).

Places where the code and its own comments differ, and the model follows the code: `dup` takes the
lowest free number above the old one, not the lowest free (src/sys/file.rs:1618 and
src/sys/file.rs:1745); record lengths of directory entries are 19 plus a multiple of 8, so records are not 8-aligned
(src/vfs.rs:355-376); `wait4` cuts its pid to 32 bits before looking it up (src/sys/process.rs:558);
`grow_in_place` extends only a range that ends at the bump pointer and never uses an adjacent hole
(src/mm/mod.rs:160-184).

## Model

| member | source | states |
|---|---|---|
| `Arenas.RoundUp` | src/mm/arena.rs:53-66 | the aligned offset is the least multiple of the alignment not below the input |
| `Arenas.FitsIff` | src/mm/arena.rs:58-66 | a hole fits iff some aligned place in it has the asked bytes up to its end, an exact fit included |
| `Arenas.WasteCounts` | src/mm/arena.rs:58-66 | the leftover that best fit compares is the number of the hole's bytes past the allocation |
| `Arenas.RoomInBytes` | src/mm/arena.rs:53-100 | holes that do not touch have room, together with the tail, iff some aligned run of free bytes or of tail bytes is long enough |
| `Arenas.CarveKeeps` | src/mm/arena.rs:71-91 | carving a non-empty range out of a hole (whole, head, tail or middle, with swap-remove) leaves the holes non-empty, disjoint and, if none touched before, none touching |
| `Arenas.CarveBytes` | src/mm/arena.rs:71-91 | carving removes exactly the carved bytes from what the holes cover |
| `Arenas.MergeStep` | src/mm/arena.rs:126-137 | merging two touching neighbours keeps the loop's invariant, covers the same bytes, and never hides an overlap |
| `Arenas.MergingDone` | src/mm/arena.rs:126-137 | when the loop ends, a disjoint list is sorted with no two holes touching |
| `Arenas.PermutedHoles` | src/mm/arena.rs:122-125 | sorting changes neither the bytes covered nor disjointness |
| `Arenas.FreedArena` | src/mm/arena.rs:106-138 | after push, sort and merge: free bytes are the old ones plus the range; the arena is consistent iff the range was live or padding, and then sorted and maximally merged |
| `Arenas.Arena.FindBest` | src/mm/arena.rs:53-70 | finds the first hole of least leftover among those that fit, or that none fits |
| `Arenas.Arena.TakeFrom` | src/mm/arena.rs:71-91 | the four carving cases move exactly the carved bytes from free to live |
| `Arenas.Arena.Bump` | src/mm/arena.rs:94-100 | the tail hands out fresh bytes; skipped bytes become padding |
| `Arenas.Arena.Alloc` | src/mm/arena.rs:46-101 | succeeds iff a hole or the tail can hold the aligned request, in bytes: iff some aligned run of free bytes or of the tail is long enough; the range was not live; a fitting hole of least leftover is preferred and exactly its bytes leave the list; whether a second request fits is foretold from the state before; partition and separation are kept |
| `Arenas.AllocThenRoom` | src/mm/arena.rs:53-100 | room after an allocation, in the best hole or the tail, in terms of the list before it |
| `Arenas.Arena.Coalesce` | src/mm/arena.rs:126-137 | the merge loop terminates, covers the same bytes, keeps disjointness either way, and leaves no touching holes |
| `Arenas.Arena.Free` | src/mm/arena.rs:106-138 | accepts iff the range is non-empty and inside the arena; then as in `FreedArena` |
| `Arenas.FreeOfNothing` | src/mm/arena.rs:106-138 | a concrete free of bytes never handed out: accepted, and the arena is inconsistent |
| `Arenas.Arena.Available` | src/mm/arena.rs:150-153 | what is available, live and padding add up to the arena size |
| `Allocator.AbsoluteGrow` | src/mm/mod.rs:120-143 | live bytes growing inside one arena grow the absolute live set by the shifted range and nothing else |
| `Allocator.PagesFor` | src/mm/mod.rs:127-132 | the pages asked for are the least number that covers the shortage |
| `Allocator.ArgErrorIff` | src/mm/mod.rs:101-118 | exactly the private anonymous requests of 1 byte to 256 KiB pass the checks; an empty one is EINVAL, any other ENOSYS |
| `Allocator.LinearAllocator.TryArenas` | src/mm/mod.rs:120-125 | allocates in the first arena with room, if there is one, else changes nothing; whether some arena has room afterwards |
| `Allocator.LinearAllocator.PlaceArena` | src/mm/mod.rs:134-143 | the fresh arena extends the tiling at the high-water mark and always holds the request |
| `Allocator.LinearAllocator.Mmap` | src/mm/mod.rs:90-144 | errors exactly on bad arguments; places iff an arena has room or memory reaches past one more arena, in the first arena with room or at the old high-water mark; NeedGrow changes nothing and names the least page count that works; a placement is 8-aligned, fresh and the only change; a second request fits iff `CanPlaceTwice` held before |
| `Allocator.LinearAllocator.FindArena` | src/mm/arena.rs:141-147 | the arena whose range test accepts the address and the length cut to 32 bits |
| `Allocator.LinearAllocator.SpansBytes` | src/mm/arena.rs:141-147 | a range lies in an arena iff its bytes lie between the arena's base and the next one's |
| `Allocator.LinearAllocator.Munmap` | src/mm/mod.rs:147-158 | releases exactly the range if it lies in one arena; the allocator stays valid iff the arena owned it; a live range is always safe; lengths of 4 GiB or more free nothing |
| `Allocator.LinearAllocator.LiveRangeIsOwned` | src/mm/mod.rs:147-158 | a live range inside one arena is owned by that arena |
| `Allocator.MapThenUnmap` | src/mm/mod.rs:90-158 | `munmap` undoes `mmap`: what was placed is accepted back and the live bytes are what they were |
| `Allocator.LinearAllocator.GrowInPlace` | src/mm/mod.rs:167-185 | succeeds iff shrinking or the range ends at a bump pointer with room; the added bytes were not live and are the only change |
| `Allocator.LinearAllocator.ExtendsIff` | src/mm/mod.rs:167-185 | the growth condition in absolute addresses: the range ends at the bump pointer and the new end is not past the arena's |
| `Allocator.LinearAllocator.Snapshot` | src/mm/mod.rs:70-75 | the data of every arena, in order |
| `Allocator.LinearAllocator.ReplaceFromSnapshot` | src/mm/mod.rs:79-82 | fresh arenas with exactly the saved data |
| `MemorySyscalls.TwoGrants` | src/sys/memory.rs:53-73 | after two placements the returned range accounts for the change iff the first one was empty |
| `MemorySyscalls.Process.LiveInsideMemory` | src/sys/memory.rs:74-84 | every live byte lies inside linear memory, so the bound guard before zero-filling never fails |
| `MemorySyscalls.Process.Decide` | src/sys/memory.rs:44-73 | one allocator decision; a placement ends inside memory; growth is possible iff the largest reachable memory would do |
| `MemorySyscalls.Process.Mmap` | src/sys/memory.rs:33-87 | exactly when it succeeds and which error otherwise; with the arenas inside memory a result is inside memory, 8-aligned, all zero, disjoint from every live range, and no other byte changes; without, a range outside memory is returned and nothing is zeroed; a first placement stays allocated in every case, success or failure |
| `MemorySyscalls.LeakOnFailure` | src/sys/memory.rs:53-73 | a run in which the call fails and keeps a whole arena |
| `MemorySyscalls.LeakOnSuccess` | src/sys/memory.rs:53-73 | a run in which two ranges become live and one is returned |
| `MemorySyscalls.Process.Munmap` | src/sys/memory.rs:91-102 | releases exactly the range if it lies in one arena, else nothing; which result; the state stays valid after every call that frees nothing, and otherwise iff the arena owned the range, as it does for a live one; memory bytes are untouched |
| `MemorySyscalls.Process.Mremap` | src/sys/memory.rs:126-161 | succeeds iff the arguments are good and the range shrinks or ends at a bump pointer with room; which error otherwise; in-place growth takes bytes nobody held; failures change nothing |
| `MemorySyscalls.MremapErrorIff` | src/sys/memory.rs:128-150 | exactly the in-place requests from a 32-bit address between positive lengths pass the checks; EINVAL comes before ENOSYS |
| `Restore.MremapGrows` | src/sys/memory.rs:151-161 | a run in which eight live bytes grow in place to the end of their arena |
| `SnapshotMemory.KeepPage` | src/snapshot.rs:734-755 | a chunk is kept iff it has a non-zero byte |
| `SnapshotMemory.CollectPages` | src/snapshot.rs:734-755 | strictly increasing indices, no all-zero page, every non-zero byte in a page, contents equal to the source |
| `SnapshotMemory.GuestMemory.CopyPages` | src/snapshot.rs:1333-1350 | copies all pages iff all fit; otherwise exactly the pages before the first that does not |
| `SnapshotMemory.GuestMemory.GrowAndCopy` | src/snapshot.rs:1299-1350 | grows to one page past the highest index, then overlays; refused for growth iff that exceeds the maximum, for bounds iff a page does not fit, with the pages before it laid down |
| `SnapshotMemory.GuestMemory.ApplyOwned` | src/snapshot.rs:1299-1350 | no pages is a success; otherwise which outcome, and memory in each |
| `SnapshotMemory.GuestMemory.ApplyShared` | src/snapshot.rs:1245-1288 | no pages is an error; otherwise which outcome, and memory in each |
| `SnapshotMemory.OverlayAt` | src/snapshot.rs:1333-1350 | each byte after an overlay: the source's inside a saved page, the old one elsewhere |
| `SnapshotMemory.CollectedFits` | src/snapshot.rs:1305-1350 | collected pages always fit after growing; a page-multiple target ends at max(current, highest index + 1) pages |
| `SnapshotMemory.RestoreAgreesIff` | src/snapshot.rs:734-755 | collect then apply agrees with the source at every address iff the target was zero outside the saved pages |
| `SnapshotMemory.OldBytesSurvive` | src/snapshot.rs:1333-1350 | a concrete restore into memory that is not zero and keeps an old byte |
| `SnapshotMemory.SameMemorySamePages` | src/snapshot.rs:734-755 | whole-page memories that agree have the same pages |
| `SnapshotMemory.SamePagesSameMemory` | src/snapshot.rs:734-755 | memories with the same pages agree |
| `SnapshotMemory.SaveRestoreSave` | src/snapshot.rs:1245-1350 | save, restore with either driver, save: only growth can fail; the target ends at the larger of its own and the saved size; the two saves are equal iff the target was zero outside the saved pages |
| `SnapshotMemory.HighWaterSurvivesIff` | src/snapshot.rs:1299-1330 | after a restore the arenas lie inside memory iff the target was large enough or the saved memory was non-zero in the last page below the mark or later |
| `SnapshotMemory.HighWaterCanBeLost` | src/snapshot.rs:1299-1330 | mapped but unwritten memory leaves no page, so a small target stays below the mark |
| `Restore.RebuiltAllocator` | src/mm/mod.rs:79-82 | an allocator rebuilt from the data of a consistent one is consistent and has the same live bytes |
| `Restore.FreezeRestore` | src/snapshot.rs:780-787 | a whole restore: the allocator is consistent for the frozen live bytes; memory agrees iff the target was zero outside the saved pages; the arenas lie inside memory iff the target was large enough or the saved pages reach the mark |
| `Restore.MmapOutside` | src/sys/memory.rs:75-83 | a run in which mmap after a restore returns a range outside memory |
| `KernelSnapshot.SortedKeys` | src/snapshot.rs:616-620 | keys in ascending order whatever order the hash map yields |
| `KernelSnapshot.SnapshotResource` | src/snapshot.rs:273-332 | the tag names the kind of resource and its payload is the resource's; epoll registrations sorted by descriptor |
| `KernelSnapshot.BuildSnapshot` | src/snapshot.rs:611-725 | the snapshot is a function of the kernel's contents, independent of map iteration order |
| `KernelSnapshot.SnapshotSays` | src/snapshot.rs:611-725 | each field of the snapshot is the kernel's field of that name; every descriptor, futex and close-on-exec number has one entry and there are no others |
| `KernelSnapshot.RebuildRoundTrip` | src/snapshot.rs:967-1175 | each resource that can be restored comes back equal; exactly which ones can |
| `KernelSnapshot.RebuildRefuses` | src/snapshot.rs:967-1175 | why a resource is refused: directory, missing path, host failure, or a tag without its payload; a reopened socket is the one the host gives |
| `KernelSnapshot.RestoreSucceedsIff` | src/snapshot.rs:895-1190 | restoring a kernel's own snapshot succeeds iff every resource is restorable |
| `KernelSnapshot.Kernel.RebuildFutex` | src/sys/futex.rs:122-134 | counters become exactly the saved ones |
| `KernelSnapshot.Kernel.RebuildFds` | src/snapshot.rs:960-1175 | the table is rebuilt in order, inherited sockets skipped; on a failure the entries before it are in the table |
| `KernelSnapshot.Kernel.ApplyKernelState` | src/snapshot.rs:895-1190 | a version mismatch changes nothing; otherwise every field comes from the snapshot; on a failure all but descriptors, next number and close-on-exec bits do, and the table holds the entries before the failing one |
| `KernelSnapshot.Kernel.AttachInherited` | src/snapshot.rs:811-850 | listeners land at their recorded numbers; strangers and taken slots are skipped; nothing else changes |
| `KernelSnapshot.AttachedMeans` | src/snapshot.rs:811-850 | open slots stay as they were; beside them exactly the inherited numbers with a listener appear, each with its first one |
| `KernelSnapshot.RestoreThenSnapshot` | src/snapshot.rs:611-725 | without sockets, the restored kernel has the frozen contents and the same snapshot again |
| `KernelSnapshot.InheritedComeBack` | src/snapshot.rs:811-850 | when the parent hands over each inherited socket, the three-step restore gives the whole table back |
| `KernelSnapshot.FreezeRestoreFreeze` | src/snapshot.rs:895-1190 | freeze, restore into any kernel, hand over inherited listeners, freeze again: equal snapshots and equal kernels, the next number included |
| `Futex.DistinctNotifiers` | src/sys/futex.rs:207-214 | two addresses never share a notifier |
| `Futex.WaitKeeps` | src/sys/futex.rs:195-217 | registering and parking keeps the invariant |
| `Futex.NotifyManySpec` | src/sys/futex.rs:292-299 | notifications take threads off the front of the queue, one each, and leave no permit |
| `Futex.WakeMovesExactly` | src/sys/futex.rs:272-301 | WAKE(val) reporting r moves exactly r distinct threads parked at that address; r is at most max(val, 0) |
| `Futex.WakeShort` | src/sys/futex.rs:272-290 | a wake that reports fewer than asked leaves no entry at the address |
| `Futex.WakeCounts` | src/sys/futex.rs:272-301 | with exact counters a wake reports min(max(val, 0), threads parked there), and reporting fewer than asked leaves nobody parked there |
| `Futex.WakeKeeps` | src/sys/futex.rs:272-301 | a wake keeps the invariant |
| `Futex.ReleaseKeeps` | src/sys/futex.rs:236-268 | the woken thread's own decrement keeps the invariant |
| `Futex.TimeoutKeeps` | src/sys/futex.rs:226-234 | a timeout keeps the invariant |
| `Futex.RunSafe` | src/sys/futex.rs:173-301 | in every run each counter is between 1 and the threads parked on its notifier, no entry outlives them, and waits = wakes + timeouts + parked |
| `Futex.ExactIff` | src/sys/futex.rs:260-268 | counters stay exact across a step iff the step is not a release at an address that still has an entry |
| `Futex.WaiterCanBeLost` | src/sys/futex.rs:260-301 | a concrete run after which a parked thread cannot be woken |
| `Futex.StaysUnreachable` | src/sys/futex.rs:173-301 | a parked thread whose notifier no entry names is left alone by every step but its own timeout |
| `Futex.LostForever` | src/sys/futex.rs:173-301 | so it stays parked in every continuation without that timeout |
| `Futex.FoundAtFirst` | src/sys/futex.rs:207-217 | a thread that has just parked can be found by a wake |
| `Futex.LosesIff` | src/sys/futex.rs:260-290 | a step loses a thread that stays parked iff it removes the entry at its address: a wake of at least the counter, or a release or timeout at counter 1 |
| `Futex.LostIff` | src/sys/futex.rs:173-301 | over a whole run: a parked thread is lost iff some step since it could be found removed the entry at its address |
| `Futex.FutexTable.FutexWait` | src/sys/futex.rs:173-217 | parks iff the address and timeout are good and the word holds the value, as one `Wait` step; EAGAIN iff the value differs; EFAULT and EINVAL as the source orders them; an error changes nothing |
| `Futex.FutexTable.FutexWake` | src/sys/futex.rs:272-301 | one `Wake` step; the return value is the number of threads moved |
| `Futex.FutexTable.Resume` | src/sys/futex.rs:236-248 | one `Release` step, returns 0 |
| `Futex.FutexTable.Expire` | src/sys/futex.rs:226-234 | one `Timeout` step, returns ETIMEDOUT |
| `Resolver.WriteHeader` | src/sys/resolver.rs:257-268 | the eight words of a node header land in place, nothing else changes |
| `Resolver.WriteSock` | src/sys/resolver.rs:271-291 | the socket address, as `SockLayout` describes it, lands in zeroed space |
| `Resolver.SockLayout` | src/sys/resolver.rs:271-291 | family 2 or 10 first, the port in network order, the address, and zeros in every reserved byte |
| `Resolver.Offsets` | src/sys/resolver.rs:226-239 | each node starts where the previous one ends |
| `Resolver.MarshalAddrinfo` | src/sys/resolver.rs:214-295 | the payload holds every header and socket address and nothing else; the head is 0 |
| `Resolver.MarshalledIsImage` | src/sys/resolver.rs:214-295 | nothing lies between or after the nodes |
| `Resolver.RoundTrip` | src/sys/resolver.rs:214-295 | walking `ai_next` from the head decodes exactly the input in order, by a reader that refuses a socket address of another family than `ai_family` or with a reserved byte that is not zero; node sizes are 48 and 60 bytes; the tail alone holds 0 |
| `ResolverCache.FilterAddrs` | src/sys/resolver.rs:302-313 | the addresses of the asked family that are not denied |
| `ResolverCache.FilterConcat` | src/sys/resolver.rs:302-313 | filtering keeps order and multiplicity |
| `ResolverCache.FilterOne` | src/sys/resolver.rs:302-313 | one address passes iff it has the family asked for, if 2 or 10 is asked for, and is not denied |
| `ResolverCache.MarshalAndReturn` | src/sys/resolver.rs:494-535 | the response, code and memory; the list in guest memory is the marshalled one iff the result slot covers only zero bytes of it, and the walk then reads exactly the filtered addresses; no other memory changed |
| `ResolverCache.RespondCode` | src/sys/resolver.rs:494-535 | which code in each case, by list size and memory: -2, -10, -11 or the number of addresses; when memory stays as it was |
| `ResolverCache.SlotOver` | src/sys/resolver.rs:516-533 | that condition, for every slot |
| `ResolverCache.SlotCutsList` | src/sys/resolver.rs:516-533 | a slot on the first `ai_next`: for any two or more addresses the guest is told of all and finds one |
| `ResolverCache.ResolverState.Lookup` | src/sys/resolver.rs:409-430 | a hit iff the entry is young enough; it is an earlier answer for the same name |
| `ResolverCache.ResolverState.Insert` | src/sys/resolver.rs:453-474 | at most 1024 names; a full cache loses an oldest entry |
| `ResolverCache.AskedTwice` | src/sys/resolver.rs:409-474 | an answer recorded at one time is found later iff the TTL is 0 or has not passed |
| `ResolverCache.ResolverState.Resolve` | src/sys/resolver.rs:409-474 | a fresh entry answers and changes nothing; otherwise the answer of the backend is returned and recorded, or its failure reported |
| `ResolverCache.ResolverState.GetAddrInfo` | src/sys/resolver.rs:409-489 | the cache refines no cache: code and whole memory are those of an uncached call at some time within the TTL, and of an uncached call now if the backend is stable over that time, for all hints, families, denylists and slots |
| `Descriptors.WriteConserves` | src/sys/file.rs:556-568 | appending keeps bytes taken + bytes buffered = bytes written, in order, for every pipe |
| `Descriptors.TakeConserves` | src/sys/file.rs:438-453 | so does taking from the front |
| `Descriptors.NewPipeConserves` | src/fd.rs:130-150 | so does a new pipe |
| `Descriptors.TookFront` | src/sys/file.rs:1392-1405 | a run of reads takes exactly the bytes that left the queue, and nothing is written |
| `Descriptors.WroteBack` | src/sys/file.rs:1434-1447 | a run of writes writes exactly the bytes that joined the queue, and nothing is taken |
| `Descriptors.Process.WithStdio` | src/fd.rs:683-695 | the starting table: standard input reads the pipe that standard output writes |
| `Descriptors.StdoutEchoes` | src/fd.rs:683-695 | what is written to descriptor 1 is read back from descriptor 0 |
| `Descriptors.Kinds` | src/sys/file.rs:1682-1745 | which kinds of resource can be read, written and duplicated |
| `Descriptors.Process.Insert` | src/fd.rs:700-706 | the next number is never an open slot |
| `Descriptors.Process.InsertAt` | src/fd.rs:709-718 | fails iff the slot is open, else fills exactly it |
| `Descriptors.Process.InsertAtLeast` | src/fd.rs:726-737 | the search ends at the lowest free number not below the minimum |
| `Descriptors.Process.Close` | src/fd.rs:764-772 | removes exactly the slot and its close-on-exec bit, or EBADF |
| `Descriptors.Process.InternalDup` | src/sys/file.rs:1682-1749 | aliases exactly one slot; nothing changes if the source cannot be duplicated |
| `Descriptors.Process.Dup` | src/sys/file.rs:1620-1627 | the lowest free number above the old one becomes an alias |
| `Descriptors.Process.Dup2` | src/sys/file.rs:1631-1652 | exactly the target slot changes; always succeeds on a duplicable source; equal numbers only check |
| `Descriptors.Process.Dup3` | src/sys/file.rs:1654-1671 | as dup2 with a close-on-exec flag; bad numbers are EBADF, equal numbers and other flags EINVAL |
| `Descriptors.Process.DupFd` | src/sys/file.rs:1548-1611 | F_DUPFD: lowest free number not below the minimum becomes an alias; EBADF and EINVAL in order |
| `Descriptors.Process.SetFd` | src/sys/file.rs:1543-1547 | close-on-exec bits stay within open descriptors iff the bit is cleared or the descriptor is open |
| `Descriptors.MarkOfNothing` | src/sys/file.rs:1543-1547 | a concrete F_SETFD on a number that is not open |
| `Descriptors.Process.Pipe2` | src/sys/file.rs:988-1020 | two fresh slots name the two ends of a fresh empty pipe; their numbers are written to the guest |
| `Descriptors.EmptyPipe` | src/sys/file.rs:515-523 | a read of a new pipe is EAGAIN and leaves it as it was |
| `Descriptors.PipeRun` | src/sys/file.rs:988-1020 | what is written to one end of a new pipe is read from a duplicate of the other |
| `Descriptors.DrainedIff` | src/sys/file.rs:438-453 | the queue is empty iff everything written was taken |
| `Descriptors.ReadReports` | src/sys/file.rs:515-523 | a read on a drained pipe is EAGAIN iff the pipe is open and end of file iff it is closed; otherwise it counts the bytes the log gained |
| `Descriptors.Process.Read` | src/sys/file.rs:411-530 | pipe arm: the front of the queue moves to guest memory; told by the log alone, EAGAIN iff the pipe is open and all that was written was taken, 0 iff closed and all taken, else the number of bytes taken; each refusal; the stream law is kept |
| `Descriptors.Process.Write` | src/sys/file.rs:534-568 | pipe arm: the whole buffer is appended; refusals; the stream law is kept |
| `Descriptors.Process.ReadIovs` | src/sys/file.rs:1370-1389 | the iovec array decodes to base and length pairs, EINVAL and EFAULT included |
| `Descriptors.IovLayout` | src/sys/file.rs:1382-1389 | the first word of an iovec is the base, the second the length |
| `Descriptors.RefusalMeans` | src/sys/file.rs:1390-1405 | on an unsuitable descriptor the first buffer that is not empty decides the error; without one the call returns 0 |
| `Descriptors.Process.Readv` | src/sys/file.rs:1367-1405 | on pipes readv is one read of the summed length of the buffers before the first bad one, then a scatter; EAGAIN, end of file and count as for `Read`; with nothing asked for, EFAULT iff a bad buffer stopped it; the stream log gains exactly the bytes taken |
| `Descriptors.Process.Writev` | src/sys/file.rs:1409-1447 | on pipes writev is one write of the concatenation of those buffers; the stream log gains exactly those bytes |
| `Descriptors.ScatterAt` | src/sys/file.rs:1367-1405 | with buffers that do not overlap, each holds its own stretch of the stream |
| `Descriptors.ScatterElsewhere` | src/sys/file.rs:1367-1405 | memory outside the buffers keeps its bytes |
| `Descriptors.GatherScatter` | src/sys/file.rs:1367-1447 | gathering from just-scattered buffers gives the stream back |
| `Paths.PartsRender` | src/vfs.rs:80-94 | the string form of a clean path reads back as its components |
| `Paths.PartsJoin` | src/vfs.rs:70-76 | joining strings appends components |
| `Paths.PartsOne` | src/vfs.rs:82-93 | one segment is one component, ".." included; only "" and "." are dropped |
| `Paths.UnderIff` | src/vfs.rs:94-98 | below a root means the root followed by more components |
| `Paths.CollapseCancel` | src/vfs.rs:82-93 | a name followed by ".." cancels anywhere in a path |
| `Paths.CollapseFailsIff` | src/vfs.rs:82-93 | collapsing fails iff some prefix climbs above "/"; otherwise the depth is names minus ".."s |
| `Paths.Normalized` | src/vfs.rs:80-98 | a result is free of "." and ".." and under the root; the only error is EACCES |
| `Paths.Normalize` | src/vfs.rs:80-98 | the push-and-pop loop computes `Normalized` |
| `Paths.NormalizeIdempotent` | src/vfs.rs:80-98 | normalizing a normalized path changes nothing |
| `Paths.ResolvePath` | src/vfs.rs:55-77 | results are clean and under the root; ENOSYS iff relative with another dirfd |
| `Paths.ResolveIsWalk` | src/vfs.rs:55-98 | resolution is a component walk from "/", the root or cwd, with the escape check at the end |
| `Paths.ResolveParent` | src/vfs.rs:55-98 | ".." resolves to the parent of cwd, or EACCES iff that is outside the root |
| `Paths.ResolveChild` | src/vfs.rs:55-98 | a name resolves to that child of cwd |
| `Paths.ResolveUpAndDown` | src/vfs.rs:55-98 | "/a/../b" resolves to b below the root, except where the path itself begins with the root |
| `Paths.ResolveViaDirfd` | src/sys/path.rs:79-118 | results are clean and under the current root |
| `Paths.DirfdErrors` | src/sys/path.rs:79-118 | a relative path through a descriptor fails with EBADF iff it is closed, ENOTDIR iff it is no directory, and otherwise only with EACCES |
| `Paths.Resolve` | src/sys/path.rs:43-58 | so for every dirfd and path |
| `Paths.ResolveIdempotent` | src/sys/path.rs:43-118 | a resolved path resolves to itself from any directory |
| `Paths.DirfdIsChdir` | src/sys/path.rs:79-118 | a directory descriptor under the root gives the same path or error as cwd set to it |
| `Paths.OldDirIsRerooted` | src/sys/path.rs:101-118 | a directory left outside by chroot is looked up again below the new root |
| `Paths.Process.OpenAt` | src/sys/file.rs:605-644 | stores a path under the first root in a fresh slot, or changes nothing |
| `Paths.Process.Chdir` | src/vfs.rs:209-219 | cwd moves to the resolved directory, always under the root, or stays |
| `Paths.Process.Chroot` | src/vfs.rs:224-232 | the new root lies under every earlier root, or nothing changes |
| `Paths.Process.ResolveAny` | src/sys/path.rs:43-118 | any path through any descriptor stays under every root the process ever had |
| `ProcessLifecycle.PidsIncrease` | src/sys/process.rs:284-289 | numbers from fork and clone strictly increase over every run |
| `ProcessLifecycle.Registered` | src/sys/process.rs:290-297 | the registry is exactly 1 and the issued numbers |
| `ProcessLifecycle.Accounts` | src/sys/process.rs:369-397 | for every run and pid: forks + stray signals = reaps + entries present |
| `ProcessLifecycle.ExactlyOneIff` | src/sys/process.rs:556-573 | a forked pid is exactly one of pending, exited or reaped once iff no signal came while it had no entry |
| `ProcessLifecycle.ReapedTwice` | src/sys/process.rs:1528-1536 | a run with one exit signal that reaps one pid twice |
| `ProcessLifecycle.ReapReports` | src/sys/process.rs:556-596 | whatever is reaped was marked exited before and carries its last recorded code |
| `ProcessLifecycle.Wstatus` | src/sys/process.rs:583 | the status word is the code modulo 256, shifted by eight |
| `ProcessLifecycle.ReadyMeans` | src/sys/process.rs:556-573 | a positive pid takes that child and no other, 0 and -1 any; only exited children are taken |
| `ProcessLifecycle.NotedReads` | src/sys/process.rs:300-330 | the guest reads the new number where it asked for it |
| `ProcessLifecycle.WaitRun` | src/sys/process.rs:447-497 | two forks, the second child ends with code 300: wait4 for it gives 0 before, then its pid and status 44 shifted by eight, then ECHILD; the first child stays |
| `ProcessLifecycle.ProcessTable.Fork` | src/sys/process.rs:369-397 | one `Forked` event with a fresh number, a pending entry for it and nothing else new |
| `ProcessLifecycle.ProcessTable.Clone` | src/sys/process.rs:262-330 | EINVAL changes nothing; otherwise one `Cloned` event, and the number is written where asked, EFAULT included |
| `ProcessLifecycle.ProcessTable.ReapAllChildren` | src/sys/process.rs:171-190 | every child is marked exited and keeps its code, in any order |
| `ProcessLifecycle.ProcessTable.RegisterAndSignal` | src/sys/process.rs:1521-1539 | the entry is marked with the code, or made |
| `ProcessLifecycle.ProcessTable.TryReap` | src/sys/process.rs:556-573 | takes exactly one matching exited child out of the table, or there was none |
| `ProcessLifecycle.ProcessTable.Wait4` | src/sys/process.rs:447-497 | which result in each case; a report names a child marked exited and its last code modulo 256 |
| `ProcessLifecycle.ProcessTable.Woken` | src/sys/process.rs:499-548 | one wake-up of a parked wait4 |
| `Dirents.RecLen` | src/vfs.rs:363-366 | the record length: fixed part plus name and NUL rounded up to eight |
| `Dirents.ShortNamesFit` | src/vfs.rs:363-366 | names of at most 255 bytes never overflow the 16-bit length |
| `Dirents.EncodeFields` | src/vfs.rs:362-376 | where each field of a record lies |
| `Dirents.ReaddirAll` | src/vfs.rs:166-177 | the loop writes one record per entry, in order |
| `Dirents.SortedNamesUnique` | src/vfs.rs:165 | once sorted, the order in which the host yields distinct names does not matter |
| `Dirents.RoundTrip` | src/vfs.rs:166-176 | following record lengths recovers inode numbers, types and names |
| `Dirents.WholeRecordsIff` | src/vfs.rs:166-176 | the first n bytes of a listing read as whole records iff n is the size of some number of entries |
| `Dirents.BufferIsWholeIff` | src/sys/file.rs:947-967 | so for a getdents64 result that starts at the end of a record |
| `Dirents.NextCutIff` | src/sys/file.rs:947-967 | a result between two positions, the first at the end of a record, is whole records iff the second is too |
| `Dirents.AllWholeIff` | src/sys/file.rs:947-967 | all results of a sequence of calls are whole records iff every call ended at the end of a record |
| `Dirents.CutBuffer` | src/sys/file.rs:947-967 | a call with a one-byte buffer, whatever the entry: its result is not whole records |
| `Dirents.DirStream.Getdents64` | src/sys/file.rs:862-975 | the bytes handed out since the start are a prefix of the listing; 0 means complete; which error in each case, and an error changes nothing |
| `Dirents.DirStream.Lseek` | src/sys/file.rs:676-685 | only a rewind of a directory is accepted, and the listing starts over; EBADF and ESPIPE otherwise |

## Left out

- TCP, AF_UNIX and UDP sockets, and reopening them on restore: host I/O; a socket is an opaque value here.
- Running a child (`run_child`, `spawn_child_thread`): thread and engine plumbing; it also re-inserts the child entry after the guest has run, which the lifecycle runs do not contain.
- Liveness of blocking wait4 and of futex waiters: the code does not guarantee it.
- The postcard wire format and SHA-256: libraries; the snapshot is treated as a value.
- Host file contents, metadata, permissions, symlinks: the host's answers are parameters.
- Which descriptors shared a buffer before a snapshot: the restore does not recreate sharing, so contents are compared per descriptor.
- A restore inside a futex run: it sets counters with nobody parked, so runs are without one.
- `d_off` values of directory records, Stat and Statx encoders: the former are not tied to record boundaries, the latter are straight-line layouts.
- poll, select, epoll readiness, eventfd, signals, clocks, rlimits, ioctl, random, meter, the command line, dispatch and guest C shims: easy facts or plumbing.
- Argument decoding of the resolver call (hints, service, NUL-terminated names): single-branch checks before the modelled part.
- Memory of 4 GiB or more: at exactly 4 GiB the high-water mark leaves 32 bits, so the model keeps memory below it.
- Process numbers past 2^31 - 1 and descriptors at 2^32 - 1: the source's counters wrap there, and the model stops short of it.
- Host names that are not valid UTF-8: they are replaced lossily by the host side.
- Descriptors.Process.Read: models the pipe arm and the refusals; files, sockets and eventfds are host I/O or single-branch.
- Descriptors.Process.Write: models the pipe arm and the refusals, for the same reason.
- Descriptors.Process.Pipe2: the source ignores O_CLOEXEC, and nothing ever marks a pipe closed by closing its ends; the model has the flag but no operation that sets it.
- Dirents.ReaddirAll: starts after the library sort by name; `SortedNamesUnique` says that the sorted order is the only one.
- ResolverCache.ResolverState.GetAddrInfo: the backend's answer and its recording share one time; the source reads the clock just after the answer.
- Dirents.DirStream.Lseek: the arm for regular files is host I/O.
- ProcessLifecycle.ProcessTable.Woken: the parking loop is one method call per wake-up, so that other calls can come between.
