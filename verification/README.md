# MarsOS kernel: a verified model

MarsOS is a small 32-bit x86 kernel. This project models its memory management, its scheduler and
process table, its program loader and the smaller services around them, and proves what holds across
all of them. Each layer is a class whose fields are the kernel's variables, with an invariant and an
abstract value; the layers stack up to one kernel object whose invariant covers frames, page tables,
heap, address spaces, tasks and processes together, and a system object that adds the files and runs scripts.

| file | layer | abstract value |
|---|---|---|
| `Words.dfy` | 32-bit words, wrap written out, single bits | integers in range |
| `Pmm.dfy` | frame allocator: bitmap, regions, counters, hint | sets of managed and free frames |
| `PagingSpec.dfy`, `Paging.dfy` | two-level page tables in physical memory | one flat map from page to entry per directory |
| `HeapSpec.dfy`, `Heap.dfy` | kernel heap: headers in memory, list, split, merge, growth | sequence of blocks that tile the heap |
| `GrowSpec.dfy` | when the heap can grow, and what it costs | the site of the next page |
| `KernelSpec.dfy`, `Spaces.dfy` | user address spaces: clone, build, undo, tear down | owners of frames, private windows |
| `SchedSpec.dfy`, `ProcSpec.dfy`, `Kernel.dfy` | scheduler, process table, spawn, exit, reap, permission gate | runs of scheduler events; table of processes |
| `SystemSpec.dfy`, `System.dfy` | processes and files together, whole runs | traces of system states |
| `Boot.dfy` | from memory map to running system | the joint invariant |
| `Marshex.dfy`, `Elf.dfy`, `ElfLayout.dfy`, `Loader.dfy` | program texts and images | decoded bytes; overlay of segments; layout of executables |
| `UserPtr.dfy` | pointer checks of system calls | sets of pages |
| `VfsSpec.dfy`, `Vfs.dfy` | RAM files over the heap | map from name to text |
| `Ipc.dfy`, `Keyboard.dfy`, `Numbers.dfy`, `ShellSpec.dfy`, `Shell.dfy` | messages, key ring, numerals, line editor and history | bag, queue, values, text with cursor |

The main results:

- Whole runs (`System.Run`): every script of spawns, exits, yields, reaps, file writes and reads that reaps
  between an exit and the next spawn gives a trace of states in which each pair is related by the operation's
  exact effect and reply. Over all such traces: frame conservation and single ownership (`Kernel.FramesConserved`,
  `Kernel.OneOwner`), files equal to the fold of the successful writes (`SystemSpec.ContentsAreWrites`), bounded
  waiting (`SystemSpec.RunServes`), and isolation (`SystemSpec.RunIsolates`, `SystemSpec.RunKeepsPages`).
- Address spaces (`KernelSpec.AddressSpace`, `Kernel.OwnPagesOnly`, `Kernel.KernelPagesWritable`,
  `UserPtr.OwnBytesOnly`): the complete flat map of every process in every state with its write and user access; a
  user process can pass pointers into its own two pages only.
- Spawning (`Kernel.SpawnUser`): the exact condition on the state before and the exact change; all or nothing.
- Heap correctness (`Heap.Kmalloc`, `Heap.Kfree`): tiling, agreement of links, no two free neighbours,
  exact accounting, first fit, untouched payloads, termination, and success exactly when growth can meet the request.
- Frame search (`Pmm.AllocFrame`): the hinted wrapping scan is "lowest free frame".
- Scheduler (`SchedSpec.BoundedWaiting`, `SchedSpec.RunKeeps`): safety and bounded waiting over all runs.
- Loader (`Marshex.DecodeExact`, `Elf.LoadElf32`, `ElfLayout.WrittenLoads`, `ElfLayout.WrittenPage`): the exact
  accepted languages and the exact page, down to the bytes of a laid-out executable.
- Messages (`Ipc.Table.Run`): no letter leaves the table unasked, doubled or changed; what each answer shows of it,
  and the exact extent of first in, first out.
- Non-vacuity (`Boot.StartSystem`, `Boot.FirstProcess`): booting from a memory map establishes the joint invariant,
  and the first process runs the stored program.

Where the code does less than it seems to promise, the model keeps the code and the exact condition is proved:

- A memory-map entry contributes what it offers if and only if its rounded start does not wrap and it does not
  reach 4 GiB (`PmmSpec.ClipExact`, `PmmSpec.ClipWrapExample`, `PmmSpec.TopPageExample`, `PmmSpec.EndWrapExample`).
- A range is reserved as far as it touches frames if and only if it does not end in the last page below 4 GiB and is
  not empty inside a page (`PmmSpec.ReserveExact`).
- A spawn reports success if and only if it creates a process with an identifier below 2^31; from there on the
  process runs and a failure is reported (`Kernel.SpawnUser`, `ProcSpec.NegativeExample`, `SystemSpec.Misreported`).
- The count of identity tables wraps to 0 for memory above 0xFFC00000 (`PagingSpec.DirCountExact`).
- Heap growth loses a frame if and only if one is free and the page is mapped already or no frame is left for
  its missing table (`Heap.GrowPage`, `Heap.LeaksFrame`, `GrowSpec.LeakExample`).
- A malformed program is accepted, as the built-in one, if and only if there is no room for the image buffer but
  there is for the stack (`Kernel.SpawnUser`, `KernelModel.MalformedExample`).
- Messages to one receiver keep their order only while no letter waits behind a freed slot (`Ipc.SendInOrder`,
  `Ipc.Table.OvertakeExample`). A receive that takes a letter answers more than 0 if and only if its buffer has more
  than one byte; into one byte the letter is lost (`Ipc.Table.Run`, `Ipc.Table.LostExample`).
- The program-header bound uses a wrapping subtraction (`Elf.TableInsideExact`, `Elf.BareHeaderEscapes`).
- A zombie's slot may be reused before it is reaped; then two processes share it, and only then is the
  invariant lost (`Kernel.SpawnUser`, `ProcSpec.SharedTask`, `Kernel.ReuseShares`).

Side conditions, stated as preconditions: the end of the kernel lies between 1 MiB and 0xFFFFF000; memory
offered to the kernel lies below the user window at 0x40000000 where user windows and the identity map meet;
the heap stays within its first 4 MiB where several directories exist, since growth reaches the others through
one shared table; `kfree` gets null, an address outside the heap, or the payload of some block; the program
headers of an image are no longer than the image; in whole runs a reap comes between an exit and the next spawn.

## Model

| member | source | states |
|---|---|---|
| `PmmSpec.ClipExact` | kernel/pmm.c:164-190 | the frames that one memory-map entry contributes are exactly the whole frames it offers above 1 MiB and the kernel, below 2^32, if and only if rounding its start up does not wrap and it does not reach 4 GiB from a start at or below 0xFFFFF000 |
| `PmmSpec.ClipWrapExample` | kernel/pmm.c:21-23 | the concrete wrap: a start above 0xFFFFF000 rounds to address 0 and the entry then contributes frames it never offered |
| `PmmSpec.TopPageExample` | kernel/pmm.c:171-177 | concrete case: an entry up to 4 GiB offers frame 0xFFFFF000, which is dropped |
| `PmmSpec.EndWrapExample` | kernel/pmm.c:166-175 | concrete case: an entry whose end wraps past 64 bits offers all memory above the kernel and contributes none |
| `PmmSpec.UsableRegionsGood` | kernel/pmm.c:163-196 | every recorded region is page-aligned, non-empty and starts at or above the end of the kernel |
| `PmmSpec.RegionFrames` | kernel/pmm.c:39-46 | frames of recorded regions are aligned and lie between the end of the kernel and the highest end |
| `PmmSpec.ManagedExact` | kernel/pmm.c:163-196 | over the map's own entries: only frames that an entry of type 1 offers are managed, and with at most 32 offering entries all of them are, for every map whose type-1 entries meet the condition of `ClipExact` |
| `PmmSpec.TopIs` | kernel/pmm.c:185-187 | the highest end is an upper bound of the regions' ends and one of them |
| `PmmSpec.ReserveExact` | kernel/pmm.c:66-75 | a range reserves exactly the frames it shares a byte with, if and only if it does not end in the last page below 4 GiB, where nothing is reserved, and is not empty inside a page, where one frame is |
| `PmmSpec.ReservedIs` | kernel/pmm.c:90-140 | a frame is reserved exactly when some listed range reserves it |
| `PmmModel.Pmm.SetBit` | kernel/pmm.c:31-33 | sets one bit of the bitmap and no other, over all 2^20 frames |
| `PmmModel.Pmm.ClearBit` | kernel/pmm.c:35-37 | clears one bit of the bitmap and no other |
| `PmmModel.Pmm.FrameInRegions` | kernel/pmm.c:39-46 | decides exactly membership in some region |
| `PmmModel.Pmm.MarkRegionUsable` | kernel/pmm.c:48-64 | after the scan exactly the region's frames have joined the managed and free sets; a frame offered twice counts once |
| `PmmModel.Pmm.ReserveRange` | kernel/pmm.c:66-88 | removes from the free set exactly the frames that the byte range touches; the used counter stays the true cardinality |
| `PmmModel.Pmm.Init` | kernel/pmm.c:142-205 | ready exactly when there is a map with a usable region; then free = managed minus reserved, counters are cardinalities, the highest end is the regions' maximum, and the managed frames are what the type-1 entries offer, as `ManagedExact` says |
| `PmmModel.Pmm.AllocFrame` | kernel/pmm.c:207-238 | the hinted, wrapping search returns the lowest free frame; a ready allocator returns 0 exactly when no frame is free, that is when used = total |
| `PmmModel.Pmm.Search` | kernel/pmm.c:219-237 | starting at the hint the scan reaches the lowest free frame before wrapping, so the full-scan failure return cannot happen |
| `PmmModel.Pmm.FreeFrame` | kernel/pmm.c:240-272 | succeeds exactly for an aligned managed frame that is in use; adds it to the free set and keeps "no free frame below the hint" |
| `PagingSpec.StoreView` | kernel/paging.c:147-153 | one write into a table changes, in the flat map of every directory that reaches the table, exactly one page, and nothing in any other directory |
| `PagingSpec.LinkView` | kernel/paging.c:129-142 | hooking a zeroed fresh table into a directory changes no translation anywhere |
| `PagingSpec.MarkView` | kernel/paging.c:143-145 | opening an existing directory entry to user code changes no translation |
| `PagingSpec.UnlinkView` | kernel/process.c:407-431 | removing an empty private table from a directory changes no translation |
| `PagingSpec.CloneView` | kernel/paging.c:290-302 | a clone's flat map is the kernel's without the pages under user entries |
| `PagingSpec.CloneKeepsView` | kernel/paging.c:282-302 | writing a clone into a fresh frame leaves every existing directory's flat map alone |
| `PagingSpec.PagesCoverBytes` | kernel/paging.c:229-258 | checking the first byte's page to the last byte's page is the same as checking every byte |
| `PagingSpec.DirCountExact` | kernel/paging.c:61-70 | the identity map ends at the memory's end rounded up to a page, but at 4 MiB at least; the 32-bit entry count covers it exactly up to 0xFFC00000; above, it wraps to 0 and nothing is mapped |
| `PagingSpec.BuiltView` | kernel/paging.c:72-91 | the tables built at boot are the identity map of all memory up to the rounded end |
| `PagingSpec.SharedPte` | kernel/paging.c:290-302 | two directories with the same entry translate every page under it alike |
| `PagingModel.Paging.AllocTable` | kernel/paging.c:25-42 | a zeroed table in a frame that was free, hence neither a live directory nor a live table; fails exactly when no frame is free |
| `PagingModel.Paging.Init` | kernel/paging.c:48-105 | paging comes on exactly when enough frames are free for the tables; then the kernel directory is the identity map (or empty after the wrap) without user entries |
| `PagingModel.Paging.MapPage` | kernel/paging.c:109-155 | exact success condition; on success every directory that reaches the table gains this one page, all others nothing; on failure no translation changes and no frame is lost, and the memory written is exactly the directory entry opened to user code when a user mapping is refused under a present entry |
| `PagingSpec.MappedAccess` | kernel/paging.c:122-151 | a mapped page leads to its frame, may be written exactly when bit 1 of the flags is set and its directory entry allows it, and touched by user code exactly when bit 2 is set |
| `PagingModel.Paging.UnmapPage` | kernel/paging.c:157-185 | succeeds exactly when the page is mapped; removes it from the directories that share the table and nothing else |
| `PagingModel.Paging.Translate` | kernel/paging.c:187-212 | lookup in the flat map plus the offset in the page |
| `PagingModel.Paging.UserAccessible` | kernel/paging.c:214-261 | accepts a byte range exactly when it is non-empty, does not wrap, and every byte lies on a user-accessible page |
| `PagingModel.Paging.CloneKernelDirectory` | kernel/paging.c:273-306 | fails exactly without a free frame; the clone is a new directory with the kernel's non-user translations, and no existing translation changes |
| `PagingModel.Paging.SwitchDirectory` | kernel/paging.c:308-319 | loads an aligned non-null directory when paging is on and otherwise does nothing |
| `PagingModel.Paging.TableIsEmpty` | kernel/process.c:397-405 | decides exactly whether no entry of a table is present |
| `PagingModel.Paging.ReleaseUserTable` | kernel/process.c:407-431 | gives a private empty user table back to the allocator, once, with no change to any translation |
| `HeapSpec.TakeTiled` | kernel/kheap.c:27-46 | cutting a block keeps the tiling of the whole heap range by blocks with sizes in multiples of 8 |
| `HeapSpec.TakeLive` | kernel/kheap.c:151-155 | allocation adds exactly one live block, disjoint from all others |
| `HeapSpec.TakeSize` | kernel/kheap.c:30-32 | a block is cut to the request exactly when more than 24 bytes are left over, else handed out whole |
| `HeapSpec.TakeEffect` | kernel/kheap.c:34-45 | the header writes of a split turn the linked list for the old blocks into the one for the new blocks, next and prev agreeing, and touch no live payload |
| `HeapSpec.ReleaseTiled` | kernel/kheap.c:48-66 | freeing and merging with both neighbours keeps the tiling and leaves no two adjacent free blocks |
| `HeapSpec.ReleaseLive` | kernel/kheap.c:177-189 | freeing removes exactly one live block |
| `HeapSpec.ReleaseUsed` | kernel/kheap.c:182-187 | the used counter falls by exactly the freed size, so it never has to be clamped |
| `HeapSpec.ReleaseSteps` | kernel/kheap.c:48-66 | merging next and then previous in place equals the one-step merge of the specification |
| `HeapSpec.ReleasePayloads` | kernel/kheap.c:48-66 | freeing writes no byte of any block that stays live |
| `HeapSpec.GrowNKeeps` | kernel/kheap.c:68-104 | any number of growth steps keeps tiling, free-pair freedom, the live set and the used count |
| `HeapSpec.AllFreed` | kernel/kheap.c:48-66 | when no allocation is live the heap is a single free block of total - 16 bytes |
| `HeapSpec.LiveDisjoint` | kernel/kheap.c:134-164 | live blocks never overlap |
| `HeapSpec.HeaderOutside` | kernel/kheap.c:27-66 | all sixteen bytes of every header lie outside every live payload, so header writes touch no allocation |
| `HeapModel.Heap.SplitBlock` | kernel/kheap.c:27-46 | the memory after a split, header by header, including the case where the rest is too small to split |
| `HeapModel.Heap.Coalesce` | kernel/kheap.c:48-66 | the linked list after merging is the list of the merged blocks |
| `HeapModel.Heap.FindFit` | kernel/kheap.c:149-158 | walks the list to the lowest-addressed free block that is large enough, or shows there is none |
| `HeapModel.Heap.FindTail` | kernel/kheap.c:85-88 | the walk ends at the last block |
| `HeapModel.Heap.GrowPage` | kernel/kheap.c:69-100 | exact condition on the state before: one page more if and only if it is unmapped in the active directory and there is a frame for it and one for a missing table; on failure a frame is lost if and only if one was free |
| `HeapModel.Heap.LeaksFrame` | kernel/kheap.c:69-80 | for every heap that has filled its first table with the next directory entry empty and one frame free: growth fails and that frame is gone |
| `GrowSpec.LeakExample` | kernel/kheap.c:69-80 | the concrete leaking site: heap end at 0xD0400000, entry 833 absent, one free frame |
| `HeapModel.Heap.MapMore` | kernel/kheap.c:68-104 | succeeds if and only if that many pages in a row can be had from the state before, for every limit; otherwise it stops at the first that cannot, keeping those before it |
| `HeapModel.Heap.SearchAndGrow` | kernel/kheap.c:148-163 | terminates, and finds the first fit if and only if after some number of whole rounds of eight pages, all of which can be had, a block fits; it grows by the least such number, for every limit |
| `GrowSpec.PlainSearch` | kernel/kheap.c:148-163 | where every page costs one frame the search succeeds exactly when the frames suffice for some sufficient number of rounds, and fails only with no frame left |
| `GrowSpec.SmallRequest` | kernel/kheap.c:148-163 | a request of up to a round less a header needs a block that fits now or eight frames: if and only if |
| `GrowSpec.RoundRefused` | kernel/kheap.c:158-162 | a page that cannot be had in a round rules out every later round, so giving up there loses no possible success |
| `HeapModel.Heap.Init` | kernel/kheap.c:106-132 | fails without paging; from the boot directory it succeeds exactly with 17 free frames and leaves one free block over sixteen pages, using those frames and touching one directory entry |
| `HeapModel.Heap.Kmalloc` | kernel/kheap.c:134-164 | non-null exactly for a size from 1 to 2^31 - 1 that the heap can meet, for every limit: first fit after as little growth as possible, 8-aligned, at least the request and at most 31 bytes more, disjoint from every live block, no live byte changed |
| `HeapModel.Heap.Kfree` | kernel/kheap.c:166-190 | removes exactly the named live block and its size from the count, merging it with its free neighbours; a pointer outside or already free changes nothing; surviving payloads are untouched |
| `HeapSpec.TakeRelease` | kernel/kheap.c:134-190 | round trip: giving back what was just allocated restores the blocks exactly |
| `HeapModel.Heap.SeenByAll` | kernel/kheap.c:78-83 | the heap's pages translate to the heap's frames in every directory, whichever one was active during growth |
| `HeapModel.Heap.Poke` | kernel/kheap.c:134-164 | writing inside one allocation changes no header and no byte of another allocation |
| `KernelSpec.Conservation` | kernel/process.c:563-638 | used frames = boot frames + one per heap page + four per user process + those of a step in progress |
| `KernelSpec.AddressSpace` | kernel/process.c:640-754 | in every state the flat map of a process is exactly: its code and stack page in the window, the heap's pages, and the kernel's map at boot |
| `KernelSpec.UserReach` | kernel/process.c:640-754 | user code reaches its own code and stack page and no other of the 2^20 pages |
| `KernelSpec.UserWrites` | kernel/process.c:664-672 | the pages that user code may write are exactly its code and its stack page |
| `KernelSpec.KernelWrites` | kernel/paging.c:72-91 | in every directory the pages outside the user window are the heap's and the identity map's, all writable and none for user code |
| `KernelModel.Kernel.OwnPagesOnly` | kernel/process.c:664-672 | in every kernel state: user code reaches pages 0x40000 and 0x40001 and no others, and may write both |
| `KernelModel.Kernel.OwnFrames` | kernel/process.c:664-672 | the first of them leads to the frame of the code, the second to that of the stack |
| `KernelModel.Kernel.KernelPagesWritable` | kernel/kheap.c:78-83 | in every kernel state and directory: exactly the heap's pages and those below the end of the identity map, each of these leading to itself, all writable |
| `KernelSpec.Isolated` | kernel/paging.c:109-185 | between any two valid memory states with the same boot map and grown heap a process translates every page outside the heap alike and keeps every heap page it saw |
| `KernelSpec.HeapStep` | kernel/kheap.c:68-104 | heap growth, through whichever directory, preserves the invariant of all address spaces and frame owners |
| `KernelSpec.CloneStep` | kernel/paging.c:273-306 | cloning into a free frame preserves the invariant of all address spaces |
| `KernelSpec.MapFirst` | kernel/process.c:664-668 | the first mapping in a new window gives it a private table and disturbs no other address space |
| `KernelSpec.CutWindow` | kernel/process.c:407-431 | taking an emptied window's table away preserves the invariant |
| `SpacesModel.Spaces.BuildUserImage` | kernel/process.c:640-754 | succeeds if and only if three frames are free and not both the image can be buffered and the text is malformed; then the window is finished and holds the program; otherwise every frame, table and mapping is back; the loaded directory and the live heap blocks are as before on every path |
| `SpacesModel.Spaces.Undo` | kernel/process.c:740-754 | the failure path returns table, code and stack frame in whatever combination they had been taken, and reloads the previous directory |
| `SpacesModel.Spaces.LoadInto` | kernel/process.c:679-734 | fails exactly when the buffer can be had and the text is malformed; the page is the program's when it can be buffered; the heap afterwards is the old one with exactly the growth the buffer took |
| `SpacesModel.Spaces.CreateSpace` | kernel/process.c:586-603 | succeeds exactly with four free frames unless the text is malformed and its image can be buffered, both read off the state before; otherwise nothing is held |
| `SpacesModel.Spaces.UnmapUserPages` | kernel/process.c:433-446 | empties the window of another directory, returns its table and reloads the directory that was active |
| `SpacesModel.Spaces.Dismantle` | kernel/process.c:606-621 | returns directory, table, code and stack frame, each once, of a process that could not get a task |
| `SpacesModel.Spaces.DismantleExited` | kernel/process.c:794-831 | the same four frames of an exited process, in the order used when reaping |
| `SchedSpec.StepKeeps` | kernel/scheduler.c:49-203 | every yield, exit, create and reap keeps: exactly the current slot is running, slot 0 is alive |
| `SchedSpec.ExitHasSuccessor` | kernel/scheduler.c:72-90 | an exiting slot always finds another to switch to, so the halt loop is never entered |
| `SchedSpec.RunKeeps` | kernel/scheduler.c:49-276 | scheduler safety in every state of every run of any length |
| `SchedSpec.ZombieStays` | kernel/scheduler.c:133-176 | along any run a zombie never becomes current again unless its slot is given to a new one |
| `SchedSpec.BoundedWaiting` | kernel/scheduler.c:49-70 | a runnable slot has been current after at most as many context switches as slots are passed when counting up to it from the current one, on from 0 after 15, whatever yields, exits, creates and reaps interleave |
| `SchedSpec.WaitStep` | kernel/scheduler.c:178-203 | no step moves a waiting slot away, and each switch brings it closer or picks it |
| `KernelModel.Kernel.PickNext` | kernel/scheduler.c:49-70 | the least runnable slot above the current one if there is one, else the least runnable slot; with none, slot 0 if another one asks, else -1 |
| `KernelModel.Kernel.ActivateTid` | kernel/process.c:949-961 | loads the directory of the process that owns the slot, the kernel's if none does |
| `KernelModel.Kernel.Yield` | kernel/scheduler.c:178-203 | a scheduler step that keeps the whole kernel invariant, in particular that the loaded directory is the current process's; memory is unchanged |
| `KernelModel.Kernel.ExitCurrent` | kernel/scheduler.c:72-113 | slot 0 cannot exit; any other becomes a zombie and its successor's directory is loaded |
| `KernelModel.Kernel.FindVacancy` | kernel/scheduler.c:133-176 | the first unused or zombie slot after 0 |
| `KernelModel.Kernel.CreateTask` | kernel/scheduler.c:133-176 | succeeds exactly with an entry, a vacancy and a block or eight frames for a stack: a new runnable slot with a stack that was not live before; a reused zombie's stack goes back; on failure nothing changes but the heap's exact growth |
| `KernelModel.Kernel.ReapTask` | kernel/scheduler.c:256-276 | succeeds exactly for a zombie other than 0; its slot becomes unused and exactly its stack is freed |
| `ProcSpec.SharedTask` | kernel/scheduler.c:140-146 | a new entry leaves tasks unshared if and only if no active entry had that slot |
| `KernelModel.Kernel.ReuseShares` | kernel/scheduler.c:140-146 | for every valid kernel whose first vacancy is a zombie: its process is still in the table, and an entry for a new process there makes two processes share the task |
| `ProcSpec.TriedFacts` | kernel/process.c:520-539 | 33 candidates in a row are pairwise different, across the 32-bit wrap too |
| `ProcSpec.NextPidLeast` | kernel/process.c:520-539 | the identifier given out is the least from the counter up that no active process has, and if there is none up to 2^32 - 1, the least from 2 on |
| `KernelModel.Kernel.PidInUse` | kernel/process.c:510-518 | decides exactly whether an active entry has the identifier |
| `KernelModel.Kernel.AllocPid` | kernel/process.c:520-539 | returns the first identifier from the counter on, going round from 2, that no active process has; at most 33 tries, so the fallback return is unreachable; the counter moves just past it; result and counter are functions of table and counter before |
| `KernelModel.Kernel.SpawnUser` | kernel/process.c:563-638 | creates a process if and only if a table entry and a task slot are free and `Spawnable` holds of the blocks, free frames and text before; the reply is the identifier as a signed integer, so it is not negative if and only if the process is created with one below 2^31; then one entry, address space, runnable slot and stack appear and the code page is the program's; otherwise table, slots, spaces, live blocks and loaded directory are as before; the heap's growth is exact in both cases; every other process sees what it saw; the invariant survives if and only if the slot was not an unreaped process's |
| `ProcSpec.NegativeExample` | kernel/process.c:623-637 | concrete case: with the counter at 2^31 and that identifier unused, a created process is reported as -2147483648 |
| `KernelModel.StackFollows` | kernel/process.c:605-621 | once the address space is built the task's stack can be had exactly when the process was spawnable before anything was taken |
| `KernelModel.MalformedExample` | kernel/process.c:681-727 | concrete case: with four frames and no block for the image, but one for the stack, a malformed text is accepted as the built-in program |
| `KernelModel.Kernel.SpawnKernel` | kernel/process.c:563-638 | creates a process if and only if there is an entry, a free table entry, a free slot and memory for a stack, with the same signed reply; then one entry, slot and stack appear in the kernel directory without frames; otherwise nothing changes but the heap's exact growth; every process sees what it saw |
| `KernelModel.Kernel.ReapEntry` | kernel/process.c:794-831 | removes one exited process: its entry, its four frames, its slot and its stack; never the loaded directory |
| `KernelModel.Kernel.Reap` | kernel/process.c:794-831 | exactly the entries of zombies disappear with their slots, exactly their stacks return to the heap, every process left sees what it saw, and the loaded directory stays |
| `KernelModel.Kernel.StillSees` | kernel/paging.c:273-306 | after any step that keeps the boot map and the heap's frames, every process that was there before translates its pages as before |
| `KernelModel.Kernel.EntryFacts` | kernel/process.c:794-831 | a zombie's entry is never the kernel's own, never the running slot's, and its directory is never the loaded one |
| `KernelModel.Kernel.FindByTid` | kernel/process.c:554-561 | the entry of a slot, or the proof that it has none |
| `KernelModel.Kernel.SyscallAllowed` | kernel/process.c:913-931 | in every state a kernel process may make all 32 calls, a user process the first 20 except writing files (8) and spawning (12), a slot without process none |
| `KernelModel.Kernel.CurrentIsKernel` | kernel/process.c:933-947 | kernel pointers are allowed exactly while the kernel directory is loaded |
| `KernelModel.Kernel.OneOwner` | kernel/process.c:563-638 | every managed frame is free or has exactly one owner among the boot state, the heap and the user processes |
| `KernelModel.Kernel.FramesConserved` | kernel/process.c:563-638 | in every state used frames = boot frames + heap_total/4096 + 4 per active user process, and the allocator's counter agrees |
| `KernelModel.AfterReap` | kernel/process.c:794-831 | when every slot belongs to a process, no zombie is left after reaping and every remaining slot still has its process |
| `SystemModel.System.DoYield` | kernel/scheduler.c:178-203 | of the whole system only the scheduler's state and the loaded directory change |
| `SystemModel.System.DoExit` | kernel/scheduler.c:72-113 | the same for an exit |
| `SystemModel.System.DoReap` | kernel/process.c:794-831 | reaping keeps every file's name, buffer and text beside what it does to processes |
| `SystemModel.System.DoSpawn` | kernel/process.c:563-638 | spawning by file name: created if and only if, the signed reply, the exact growth of the heap, the program of the file found under the name or its prefixed form, and no file changes |
| `SystemSpec.SpawnedProgram` | kernel/process.c:191-237 | a process started by name runs the file of that name; else the file whose name is the bytes 97, 112, 112, 46 and that name; else, or without room for the image, the built-in program |
| `SystemSpec.HelloRuns` | kernel/process.c:191-237 | with the files of a new system and 12 free frames the name hello_ping starts the stored program |
| `SystemModel.System.DoSpawnTask` | kernel/process.c:563-638 | the same for a kernel process |
| `SystemModel.System.DoWrite` | kernel/vfs.c:106-147 | a write beside running processes: success if and only if, one key changes, the heap grows by the least rounds that suffice or in vain by all frames, no stack is freed or written, every process sees what it saw, and the kernel's invariant holds |
| `SystemModel.System.DoRead` | kernel/vfs.c:164-190 | a read changes nothing and returns the stored text cut to the buffer |
| `SystemModel.System.Perform` | kernel/kernel.c:69-100 | every operation of a disciplined script keeps the joint invariant and is the step that `Did` says, failures included |
| `SystemModel.System.Run` | kernel/kernel.c:69-100 | any script of spawns, yields, exits, reaps, writes and reads that reaps between an exit and the next spawn: the returned trace starts and ends at the real states, each state satisfies the whole invariant with frame conservation, and each leads to the next by its operation and reply |
| `SystemSpec.ContentsAreWrites` | kernel/vfs.c:106-147 | at every moment of every run the files are the fold of the successful writes, however processes and heap interleave |
| `SystemSpec.ReadsLastWrite` | kernel/vfs.c:164-190 | in every run a read returns the text last written under its name, and fails exactly when there is none |
| `SystemSpec.TraceRuns` | kernel/scheduler.c:49-276 | every run of the system is a run of the scheduler with one event per operation, fitting it |
| `SystemSpec.RunServes` | kernel/scheduler.c:49-70 | in every run a task runnable at the start is current after at most as many context switches as slots are passed when counting up to it |
| `SystemSpec.RunIsolates` | kernel/paging.c:109-185 | a user process alive from one moment of a run to another translates every page alike at both, but for heap pages added |
| `SystemSpec.RunKeepsPages` | kernel/process.c:640-754 | the code and stack page of a process alive from one moment of a run to another hold the same bytes at both, whatever the others do |
| `SystemSpec.StaysLoaded` | kernel/process.c:679-737 | as long as it lives a spawned process has the page of its program and the zero page for its stack |
| `SystemSpec.StepCovered` | kernel/process.c:794-831 | every step keeps each task with its process; only an exit leaves a zombie, and a reap leaves none |
| `SystemSpec.ReplyExact` | kernel/process.c:637 | in every run a spawn answers with a number that is not negative if and only if it creates a process with an identifier below 2^31 |
| `SystemSpec.Misreported` | kernel/process.c:623-637 | with the counter at 2^31 a spawn in a run creates its process and answers with a negative number |
| `Boot.Start` | kernel/kernel.c:1274-1290 | boot succeeds exactly when the map offers enough free frames; then the invariant of the whole kernel holds, the kernel's map outside the heap's entry is the identity map of memory, the heap ends after sixteen pages, the boot frames are the reserved managed frames, the identity tables and one heap table, and the free frames are counted |
| `Boot.StartSystem` | kernel/kernel.c:1274-1318 | with enough memory to boot, the system comes up if and only if each of the three first writes succeeds in the state it meets, as a run from the booted state; room for the texts suffices; then the joint invariant holds, from which every run starts |
| `Boot.FirstProcess` | kernel/kernel.c:69-70 | boot to first process, for every map with room: spawning hello_ping answers 2, takes table entry 1 and task 1, and its code page is the page of the program text |
| `SystemModel.System.Populate` | kernel/vfs.c:81-104 | the greeting and the two program texts are stored by a run of three writes that stops at the first failure, so it succeeds if and only if each is writable in the state it meets; it does when their bytes fit in the free frames |
| `Marshex.DecodeExact` | kernel/process.c:144-189 | a text decodes to given bytes if and only if it writes them: optional spaces, optional keyword, pairs of hex digits in either case with any spaces between, 1 to capacity bytes |
| `Marshex.ToolRoundTrip` | tools/elf_to_marshex.sh:28-29 | every non-empty image within capacity that the tool prints is read back unchanged |
| `Marshex.NibbleTable` | kernel/process.c:97-114 | the sixteen digits by value, letters of either case |
| `Marshex.PairExample` | kernel/process.c:144-189 | concrete case: all four kinds of white space, the keyword, digits of both cases, the high digit first |
| `Marshex.ParseUserImageHex` | kernel/process.c:144-189 | the parser loop accepts exactly the decodable texts and fills the buffer with the decoded bytes |
| `Marshex.SkipWs` | kernel/process.c:128-133 | skips exactly the leading spaces |
| `Elf.TableInsideExact` | kernel/process.c:248-290 | an accepted header keeps the program headers inside the image if and only if the table is no longer than the image |
| `Elf.BareHeaderEscapes` | kernel/process.c:248-290 | concrete case: a bare 52-byte header announcing two program headers passes the wrapped check although its table does not fit |
| `ElfLayout.WrittenReads` | kernel/process.c:45-70 | images laid out field by field as in the System V ABI: the header checks pass exactly for the header of a 32-bit little-endian x86 executable, and entry point and program headers are read back |
| `ElfLayout.WrittenLoads` | kernel/process.c:248-358 | such an image loads if and only if its header is standard, every loaded segment lies in the page and in the file, and the entry point is in one |
| `ElfLayout.WrittenPage` | kernel/process.c:293-339 | the page, in terms of the fields: the last segment that maps a byte decides it, from the file as far as filesz reaches, then zero; other bytes are zero |
| `ElfLayout.WrittenProgram` | kernel/process.c:689-710 | as a program of at most 16 KiB it becomes that page at 0x40000000 with that entry point, or is malformed |
| `Elf.LoadElf32` | kernel/process.c:248-358 | loads exactly the images whose headers are good, whose segments all lie in the page and the image, and whose entry lies in a loaded segment; then the page is the zero page overlaid in header order; `ElfLayout` ties headers and entry to bytes |
| `Elf.LoadSegments` | kernel/process.c:293-339 | the same for the segment loop, with its two flags |
| `Elf.LastWriterWins` | kernel/process.c:293-339 | a byte of the page is decided by the last segment in header order that covers it |
| `Elf.UntouchedIsZero` | kernel/process.c:122-126 | a byte that no segment covers is zero |
| `Elf.EntryInPage` | kernel/process.c:341-358 | an accepted entry point lies inside the page |
| `Loader.LoadProgram` | kernel/process.c:689-710 | status and page for every text: none, malformed, raw bytes padded with zeros, or an ELF image |
| `Loader.FlatProgram` | kernel/process.c:699-708 | a file that is no executable is the code itself at the start of a page of zeros, entered at 0x40000000; above 4 KiB it is malformed |
| `UserPtr.RangeMapped` | kernel/syscall.c:36-67 | accepts a range exactly when it is not null, not empty, does not wrap and every byte is mapped |
| `UserPtr.RangeOk` | kernel/syscall.c:69-79 | the same, and user-accessible byte by byte when asked |
| `UserPtr.CopyInString` | kernel/syscall.c:81-112 | succeeds exactly when a terminated string that fits the buffer lies there with every byte up to its end acceptable, and then copies exactly that string |
| `UserPtr.OwnBytesOnly` | kernel/syscall.c:36-79 | for a user process, in every kernel state, the checks accept exactly the ranges inside its own code and stack page |
| `VfsSpec.Survives` | kernel/vfs.c:106-147 | the step behind the runs: files stay what they are when their buffers stay live with their bytes, which every operation of a run is shown to ensure |
| `VfsSpec.Enumeration` | kernel/vfs.c:192-225 | listing the table shows every file of the map once, and the count is the map's size |
| `VfsSpec.NamesInOrder` | kernel/vfs.c:208-225 | the listing is in slot order: a file comes after as many names as there are used slots before its own |
| `VfsModel.FileTable.WriteFile` | kernel/vfs.c:106-147 | success if and only if: arguments good, a buffer obtainable, the name known or a slot free; one key of the map changes or none does; every live block that is no file's buffer stays live with its bytes, a new buffer was not live before, and exactly one live block per file stays, so no buffer leaks; the heap's growth is that of the search |
| `VfsModel.FileTable.ReadFile` | kernel/vfs.c:149-162 | the address of the stored, terminated text, 0 exactly when the name is unknown |
| `VfsModel.FileTable.ReadFileInto` | kernel/vfs.c:164-190 | the stored text cut to out_size - 1 and terminated; -1 exactly for bad arguments or unknown names |
| `VfsModel.FileTable.ProgramText` | kernel/process.c:191-228 | the text of the file with this name, else of the file with the prefixed name if that fits 39 bytes, else none |
| `VfsSpec.CharsBack` | kernel/process.c:199-236 | a text stored as bytes is read as the characters it was written with |
| `VfsModel.FileTable.FileCount` | kernel/vfs.c:192-206 | the number of keys |
| `VfsModel.FileTable.FileNameAt` | kernel/vfs.c:208-225 | the index-th name of a listing without repetitions, present exactly for indices below the count |
| `Ipc.Table.Send` | kernel/ipc.c:45-63 | exact success condition; the first free slot, the log and the bag of pending letters gain exactly this letter, its text cut to 63 bytes; all else stays |
| `Ipc.Table.Receive` | kernel/ipc.c:65-88 | the first slot for this receiver is emptied and its letter delivered, cut to the buffer; the bag loses exactly that letter; the log and the other slots stay |
| `Ipc.Table.Run` | kernel/ipc.c:45-88 | over any sequence of sends, and of receives into buffers of any size: the log grows by exactly the accepted letters, each letter waits or was handed over once, every answer is the letter of its log entry cut to the buffer, positive if and only if the buffer has more than one byte, and to one receiver letters sent with no receive between them come first in, first out |
| `Ipc.SendInOrder` | kernel/ipc.c:49-59 | order beyond one stretch: a send keeps a receiver's letters in order if and only if none of them lies behind the first free slot |
| `Ipc.OldestFirst` | kernel/ipc.c:65-88 | while a receiver's letters lie in order the one sent first is the one found |
| `Ipc.Table.OvertakeExample` | kernel/ipc.c:45-88 | a run from the empty table: after another receiver freed an earlier slot, the second of two letters is received while the first waits |
| `Ipc.Table.LostExample` | kernel/ipc.c:65-83 | a run from the empty table: a letter received into one byte is gone and the answer is 0, as for an empty table |
| `Ipc.Table.PendingCount` | kernel/ipc.c:90-104 | the size of the bag |
| `Ipc.SendKeeps` | kernel/ipc.c:49-59 | sending into the first free slot keeps letters of one receive-free stretch in sending order |
| `Keyboard.Ring.Push` | kernel/keyboard.c:36-45 | the interrupt appends a character, or drops it exactly when 255 are waiting, even while the consumer is half-way |
| `Keyboard.Ring.Read` | kernel/keyboard.c:115-122 | finds a character exactly when one is waiting |
| `Keyboard.Ring.Advance` | kernel/keyboard.c:123-125 | delivers the oldest undelivered character, whatever was pushed since it was read |
| `Keyboard.Ring.Run` | kernel/keyboard.c:36-125 | under every interleaving the accepted and delivered characters are those of a bounded queue doing the same steps, and what was delivered is a prefix of what was accepted |
| `Numbers.ParseU32` | kernel/kernel.c:246-272 | accepts exactly the non-empty decimal numerals with a value below 2^32, despite wrapping arithmetic, and returns that value |
| `Numbers.ParseU32Auto` | kernel/kernel.c:274-321 | the same with 0x or 0X for hexadecimal |
| `Numbers.PutDec` | kernel/vga.c:76-93 | prints the decimal numeral without leading zeros; ten places suffice |
| `Numbers.PutHex` | kernel/vga.c:59-66 | prints 0x and the eight hexadecimal digits |
| `Numbers.PrintedReads` | kernel/vga.c:59-93 | round trip: every 32-bit number printed in either form is accepted with itself as value |
| `Numbers.FirstDigit` | kernel/kernel.c:246-321 | the first digit of a numeral counts most, by the power of the base for the digits after it |
| `Numbers.DigitTable` | kernel/kernel.c:289-305 | the digits by value, letters of either case |
| `Numbers.GlyphTable` | kernel/vga.c:60-64 | the printed digits, letters in upper case |
| `ShellModel.Shell.Press` | kernel/kernel.c:1382-1489 | each key changes text, cursor and recalled line as the function on values says; the buffer stays terminated and within 128 bytes |
| `ShellModel.Shell.Insert` | kernel/kernel.c:1472-1489 | shifting right in place inserts at the cursor |
| `ShellModel.Shell.Remove` | kernel/kernel.c:1433-1470 | shifting left in place removes one character |
| `ShellModel.Shell.ReplaceLine` | kernel/kernel.c:141-155 | shows a remembered line with the cursor at its end |
| `ShellModel.Shell.StoreHistory` | kernel/kernel.c:178-222 | the rows after storing are the remembered lines with this one added, or unchanged for an empty or repeated line |
| `ShellModel.Shell.Enter` | kernel/kernel.c:1445-1491 | the next prompt is empty and the line is remembered |
| `ShellSpec.TypeAndErase` | kernel/kernel.c:1433-1489 | a typed character is undone by backspace and by left and delete, from every prompt with room |
| `ShellSpec.TypedLine` | kernel/kernel.c:1472-1489 | a line typed at any cursor position appears there whole |
| `ShellSpec.CursorMoves` | kernel/kernel.c:1417-1431 | left and right move the cursor one place and no further than the ends, and undo each other |
| `ShellSpec.UpShows` | kernel/kernel.c:1382-1397 | from a fresh prompt, n times up shows the nth last remembered line, and the oldest from there on |
| `ShellSpec.UpShowsEntered` | kernel/kernel.c:178-222 | after a line was entered, up shows it |
| `ShellSpec.DownUndoesUp` | kernel/kernel.c:1382-1415 | down undoes up on a remembered line that is not the oldest, and empties the prompt after an up from a fresh one |
| `ShellSpec.HistoryIs` | kernel/kernel.c:178-222 | after any session the history is the last eight of the kept lines |
| `ShellSpec.KeptClean` | kernel/kernel.c:178-188 | kept lines are non-empty and no two neighbours are equal |

## Left out

- Port I/O, VGA memory and cursor drawing, serial line, PIT and PIC set-up: hardware plumbing.
- Assembly, control registers, TLB invalidation, GDT/TSS and the registers saved by a context switch: a switch is a change of the current slot, a CR3 load a change of the current directory.
- Interrupt masking around task creation and the tick and preemption flags: a pending preemption is an ordinary yield.
- run_command, the shell's other commands, page-fault messages and the built-in self-test.
- kernel/exec.c and kernel/usermode.c: a fixed list of programs and a one-off test mapping; its frames would belong to the boot frames.
- Raw pointer walking over Multiboot structures, command line and module strings: the memory map and the reserved ranges are sequences.
- The machine code emitted for built-in programs, and the program identifier that selects it.
- Writes by user code to its own pages: a page holds what was loaded.
- Names, stack pointers, entry arguments and the listing functions of tasks and processes.
- The vmmap and vmunmap commands, which edit the kernel directory between lifecycle steps.
- Scan codes, shift and extended keys: the ring takes characters.
- String comparison and copying of terminated strings are equality and prefix on sequences of bytes.
- SystemModel.System.Run: stops early when the heap could outgrow its first 4 MiB, because growth beyond it would be visible in one directory only.
- HeapModel.Heap.Kfree: does not cover pointers into the middle of a block, which the code takes for headers; its callers pass what `kmalloc` returned.
- Elf.LoadElf32: does not cover images that announce more program headers than they hold, for which the code reads past the image; `Elf.TableInsideExact` says exactly which images those are.
- Loader.LoadProgram: does not cover texts of such images, for the same reason.
- VfsModel.FileTable.WriteFile: is stated for texts shorter than 2^32 - 1 bytes, beyond which the length of a text no longer fits its type.
- KernelModel.Kernel.SpawnUser: does not say what the code page holds for a built-in program, whose bytes are not modelled.
