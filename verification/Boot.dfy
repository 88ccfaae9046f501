/** From the memory map to a running kernel. */
module Boot {
  import opened Words
  import opened PmmSpec
  import opened PmmModel
  import opened PagingSpec
  import opened PagingModel
  import opened HeapSpec
  import opened HeapModel
  import opened KernelSpec
  import opened SpacesModel
  import opened SchedSpec
  import opened ProcSpec
  import opened KernelModel
  import opened VfsSpec
  import opened VfsModel
  import opened SystemSpec
  import opened SystemModel
  import Loader

  /** The frames that boot needs: the identity tables, the heap's table and its first pages. */
  function BootFrames(highest: u32): (n: int)
    ensures n >= INITIAL_PAGES + 1
  {
    DirCount(IdentityEnd(highest)) + INITIAL_PAGES + 1
  }

  /** What the memory map must offer. */
  ghost predicate EnoughMemory(hasMmap: bool, entries: seq<MmapEntry>, kernelEnd: u32, reserved: seq<Region>) {
    var regions := UsableRegions(entries, AlignUp4k(kernelEnd));
    hasMmap && regions != [] && 0 <= Top(regions) < U32_LIMIT
    && |Managed(regions) - Reserved(reserved)| >= BootFrames(Top(regions))
  }

  /**
   Brings up the frame allocator, paging, the heap, the scheduler and the process table. With the map's
   memory below the user window, boot succeeds exactly when there is memory and enough of it is free, and
   then the invariant of the whole kernel holds, from which every run starts.
   */
  method Start(hasMmap: bool, entries: seq<MmapEntry>, kernelEnd: u32, reserved: seq<Region>, directory: u32)
    returns (kernel: Kernel?)
    requires LOW_LIMIT <= kernelEnd <= 0xFFFF_F000
    requires directory % PAGE_SIZE == 0 && 0 < directory < kernelEnd
    requires Top(UsableRegions(entries, AlignUp4k(kernelEnd))) <= Loader.CODE_BASE
    ensures kernel != null <==> EnoughMemory(hasMmap, entries, kernelEnd, reserved)
    ensures kernel != null ==> kernel.Valid() && kernel.Covered() && kernel.NoZombies()
    ensures kernel != null ==> kernel.mem.heap.end == 0xD001_0000
    ensures kernel != null ==> fresh(kernel) && NewTable(kernel.procs, kernel.states, kernel.nextPid)
    ensures kernel != null ==>
              && fresh(kernel.mem.heap) && fresh(kernel.mem.heap.paging) && fresh(kernel.mem.heap.paging.pmm)
              && fresh(kernel.mem.heap.paging.pmm.bitmap)
    ensures kernel != null ==>
              var regions := UsableRegions(entries, AlignUp4k(kernelEnd));
              && 0 <= Top(regions) < U32_LIMIT
              && |kernel.mem.base| == |Managed(regions) * Reserved(reserved)| + DirCount(IdentityEnd(Top(regions))) + 1
              && |kernel.mem.heap.paging.pmm.free| == |Managed(regions) - Reserved(reserved)| - BootFrames(Top(regions))
              && SameOutsideHeap(kernel.mem.fixed, IdentityView(IdentityEnd(Top(regions))))
  {
    hide Heap.Valid, Heap.Shared, KernelDirOk, Spaces.Valid, EnoughMemory, Kernel.AlmostValid;
    hide Managed, Reserved, UsableRegions, DirCount, IdentityEnd, Top, SameOutsideHeap, IdentityView, View;
    var heap := StartMemory(hasMmap, entries, kernelEnd, reserved, directory);
    if heap == null {
      return null;
    }
    var spaces := new Spaces(heap);
    spaces.Counted({}, {});
    ghost var regions := UsableRegions(entries, AlignUp4k(kernelEnd));
    SplitCount(Managed(regions), Reserved(reserved));
    kernel := new Kernel(spaces);
  }

  lemma SplitCount(a: set<int>, b: set<int>)
    ensures |a| == |a - b| + |a * b|
  {
    assert a == (a - b) + (a * b);
  }

  /** The whole system: the kernel, and the files it starts with. */
  method StartSystem(hasMmap: bool, entries: seq<MmapEntry>, kernelEnd: u32, reserved: seq<Region>, directory: u32,
                     greeting: Str, program: Str)
    returns (system: System?, ghost replies: seq<Reply>, ghost trace: seq<Snap>)
    requires LOW_LIMIT <= kernelEnd <= 0xFFFF_F000
    requires directory % PAGE_SIZE == 0 && 0 < directory < kernelEnd
    requires Top(UsableRegions(entries, AlignUp4k(kernelEnd))) <= Loader.CODE_BASE
    requires Loader.TablesFit(Some(Chars(greeting))) && Loader.TablesFit(Some(Chars(program)))
    requires INITIAL_PAGES * PAGE_SIZE + WriteBytes(greeting) + 2 * WriteBytes(program) <= HEAP_LIMIT - HEAP_START
    ensures system != null ==> EnoughMemory(hasMmap, entries, kernelEnd, reserved)
    // exactly when each of the three writes, from the booted state on, is writable in the state it meets
    ensures EnoughMemory(hasMmap, entries, kernelEnd, reserved) ==>
              && IsTrace(trace, FirstWrites(greeting, program), replies)
              && trace[0].contents == map[] && trace[0].world.end == HEAP_START + INITIAL_PAGES * PAGE_SIZE
              && (system != null <==> replies == [Wrote(true), Wrote(true), Wrote(true)])
              && (system == null ==> |replies| > 0 && replies[|replies| - 1] == Wrote(false))
    ensures EnoughMemory(hasMmap, entries, kernelEnd, reserved) ==>
              var regions := UsableRegions(entries, AlignUp4k(kernelEnd));
              (|Managed(regions) - Reserved(reserved)| - BootFrames(Top(regions))) * PAGE_SIZE
                >= WriteBytes(greeting) + 2 * WriteBytes(program) ==>
                system != null
    ensures system != null ==> system.Valid() && system.kernel.NoZombies()
    ensures system != null ==>
              system.files.contents == map[WELCOME := greeting][HELLO_PING := program][HELLO_APP := program]
    ensures system != null ==>
              && NewTable(system.kernel.procs, system.kernel.states, system.kernel.nextPid) && fresh(system.kernel)
              && fresh(system.kernel.mem.heap) && fresh(system.kernel.mem.heap.paging)
              && fresh(system.kernel.mem.heap.paging.pmm) && fresh(system.kernel.mem.heap.paging.pmm.bitmap)
    ensures system != null ==>
              var regions := UsableRegions(entries, AlignUp4k(kernelEnd));
              && system.kernel.mem.heap.end - (HEAP_START + INITIAL_PAGES * PAGE_SIZE)
                 <= WriteBytes(greeting) + 2 * WriteBytes(program)
              && system.FreeBytes() + WriteBytes(greeting) + 2 * WriteBytes(program)
                 >= (|Managed(regions) - Reserved(reserved)| - BootFrames(Top(regions))) * PAGE_SIZE
  {
    hide EnoughMemory, Kernel.Valid, Kernel.Covered, Loader.TablesFit, UsableRegions, Top, Heap.Valid, FilesOk,
         FileTable.Valid, System.Valid;
    hide Managed, Reserved, DirCount, IdentityEnd, NoneZombie, IsTrace;
    replies, trace := [], [];
    var kernel := Start(hasMmap, entries, kernelEnd, reserved, directory);
    if kernel == null {
      return null, [], [];
    }
    system := WithFiles(kernel);
    var ok;
    ok, replies, trace := system.Populate(greeting, program);
    if !ok {
      system := null;
    }
  }

  /**
   The first process of a new system, by the name "hello_ping": with room for it, it gets the identifier 2, the table
   entry 1 and the task 1, and its code page is the page of the program text stored at start.
   */
  method FirstProcess(hasMmap: bool, entries: seq<MmapEntry>, kernelEnd: u32, reserved: seq<Region>, directory: u32,
                      greeting: Str, program: Str)
    returns (system: System?, reply: int)
    requires LOW_LIMIT <= kernelEnd <= 0xFFFF_F000
    requires directory % PAGE_SIZE == 0 && 0 < directory < kernelEnd
    requires Top(UsableRegions(entries, AlignUp4k(kernelEnd))) <= Loader.CODE_BASE
    requires Loader.TablesFit(Some(Chars(greeting))) && Loader.TablesFit(Some(Chars(program)))
    requires INITIAL_PAGES * PAGE_SIZE + WriteBytes(greeting) + 2 * WriteBytes(program) + SPAWN_ROOM
             <= HEAP_LIMIT - HEAP_START
    requires EnoughMemory(hasMmap, entries, kernelEnd, reserved)
    requires var regions := UsableRegions(entries, AlignUp4k(kernelEnd));
             (|Managed(regions) - Reserved(reserved)| - BootFrames(Top(regions)) - 12) * PAGE_SIZE
             >= WriteBytes(greeting) + 2 * WriteBytes(program)
    requires Loader.OutcomeOf(Some(Chars(program))) != Loader.Malformed
    ensures system != null && system.Valid() && reply == 2
    ensures var p := system.kernel.procs[1];
            && p.active && p.pid == 2 && p.tid == 1 && !p.isKernel && p.code in system.kernel.pages
            && system.kernel.states[1] == Runnable
            && Loader.OutcomeOf(Some(Chars(program))) == Loader.Loaded(system.kernel.pages[p.code], p.entry)
  {
    hide EnoughMemory, Loader.TablesFit, UsableRegions, Top, System.Valid, Managed, Reserved, DirCount, IdentityEnd;
    hide IsTrace, Loader.OutcomeOf, Did, Chars, SnapOk;
    ghost var replies, trace;
    system, replies, trace := StartSystem(hasMmap, entries, kernelEnd, reserved, directory, greeting, program);
    reply := system.SpawnHello(greeting, program);
  }

  method WithFiles(kernel: Kernel) returns (system: System)
    requires kernel.Valid() && kernel.Covered()
    ensures fresh(system.files) && system.kernel == kernel && system.Valid() && system.files.contents == map[]
  {
    hide Kernel.Valid, CoveredBy, Heap.Valid, FilesOk;
    kernel.Parts();
    kernel.mem.HeapValid({}, {});
    var files := new FileTable(kernel.mem.heap);
    system := new System(kernel, files);
  }

  method StartMemory(hasMmap: bool, entries: seq<MmapEntry>, kernelEnd: u32, reserved: seq<Region>, directory: u32)
    returns (heap: Heap?)
    requires LOW_LIMIT <= kernelEnd <= 0xFFFF_F000
    requires directory % PAGE_SIZE == 0 && 0 < directory < kernelEnd
    requires Top(UsableRegions(entries, AlignUp4k(kernelEnd))) <= Loader.CODE_BASE
    ensures heap != null <==> EnoughMemory(hasMmap, entries, kernelEnd, reserved)
    ensures heap != null ==> heap.Valid() && heap.Shared() && heap.paging.dirs == {heap.paging.kernelDir}
    ensures heap != null ==> heap.paging.currentDir == heap.paging.kernelDir
    ensures heap != null ==> KernelDirOk(heap.paging.mem, heap.paging.kernelDir)
    ensures heap != null ==> heap.end == HEAP_START + INITIAL_PAGES * PAGE_SIZE
    ensures heap != null ==>
            && fresh(heap) && fresh(heap.paging) && fresh(heap.paging.pmm)
            && fresh(heap.paging.pmm.bitmap)
    ensures heap != null ==>
              var regions := UsableRegions(entries, AlignUp4k(kernelEnd));
              && 0 <= Top(regions) < U32_LIMIT && heap.paging.pmm.managed == Managed(regions)
              && |heap.paging.pmm.free| == |Managed(regions) - Reserved(reserved)| - BootFrames(Top(regions))
              && SameOutsideHeap(View(heap.paging.mem, heap.paging.kernelDir), IdentityView(IdentityEnd(Top(regions))))
  {
    hide Managed, Reserved, UsableRegions, Pmm.Valid, View, DirCount, IdentityEnd, Top, Paging.Valid, Heap.Valid,
         PlainDirectory, KernelDirOk, IdentityView, RowKept, SameOutsideHeap;
    var pmm := new Pmm();
    pmm.Init(hasMmap, entries, kernelEnd, reserved);
    var paging := new Paging(pmm, directory);
    if !pmm.initialized {
      // neither paging nor the heap comes up
      return null;
    }
    paging.Init();
    LowMemory(pmm.highestEnd);
    ghost var mem, tables := paging.mem, DirCount(IdentityEnd(pmm.highestEnd));
    if paging.enabled {
      PlainEntry(mem, paging.kernelDir, tables, HEAP_ENTRY);
    }
    heap := new Heap(paging);
    var ok := heap.Init();
    if !ok {
      return null;
    }
    KernelDirAtBoot(mem, paging.mem, paging.kernelDir, tables, paging.dirs, heap.end);
  }

  lemma LowMemory(highest: u32)
    requires highest <= Loader.CODE_BASE
    ensures DirCount(IdentityEnd(highest)) <= USER_ENTRY
  {
  }

  lemma PlainEntry(mem: Mem, k: int, n: int, i: int)
    requires PlainDirectory(mem, k, n) && n <= i < ENTRIES && 0 <= i
    ensures IsTable(mem, k) && !Present(mem[k][i])
  {
  }

  lemma KernelDirAtBoot(mem: Mem, mem': Mem, k: int, n: int, dirs: set<int>, end: int)
    requires PlainDirectory(mem, k, n) && n <= USER_ENTRY
    requires RowKept(mem, mem', k, HEAP_ENTRY) && SharedTables(mem', dirs, k, end)
    ensures KernelDirOk(mem', k)
  {
  }
}
