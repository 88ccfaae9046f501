/**
 Building and tearing down the address space of a user process: a directory cloned from the
 kernel's, one table for the user window, one code frame and one stack frame.
 */
module SpacesModel {
  import opened Words
  import opened PmmModel
  import opened PagingSpec
  import opened PagingModel
  import opened HeapSpec
  import opened GrowSpec
  import opened HeapModel
  import opened KernelSpec
  import opened Marshex
  import Loader

  /** Room on the heap for the image buffer, whatever growth it takes. */
  const IMAGE_ROOM := Loader.IMAGE_MAX + HEADER + GROW_PAGES * PAGE_SIZE

  /** The image buffer can be had. */
  ghost predicate CanBuffer(bs: seq<Block>, free: int) {
    CanHave(bs, free, Loader.IMAGE_MAX)
  }

  ghost function ImagePages(bs: seq<Block>, free: nat): nat {
    PagesFor(bs, free, Loader.IMAGE_MAX)
  }

  /** Having a buffer for the image and giving it back leaves the heap with the growth this took. */
  ghost function Buffered(bs: seq<Block>, free: nat): seq<Block>
    requires |bs| > 0
  {
    GrowN(bs, ImagePages(bs, free))
  }

  /** The pages by which creating an address space makes the heap grow; they stay when the creation fails. */
  ghost function SpacePages(bs: seq<Block>, free: nat): (n: nat)
    ensures free >= 4 ==> n <= free - 4
  {
    if free < 4 then 0 else ImagePages(bs, free - 4)
  }

  lemma SpaceBlocks(bs: seq<Block>, free: nat)
    requires |bs| > 0
    ensures GrowN(bs, SpacePages(bs, free)) == if free < 4 then bs else Buffered(bs, free - 4)
    ensures free >= 4 ==> SpacePages(bs, free) == ImagePages(bs, free - 4)
  {
  }

  class Spaces {
    const heap: Heap

    /** The frames in use since boot, the address spaces by process slot, and the kernel's view at boot. */
    ghost var base: set<int>
    ghost var spaces: map<int, Space>
    ghost var fixed: map<int, int>

    /** Takes over the memory as boot leaves it: everything in use now stays in use. */
    constructor (heap: Heap)
      requires heap.Valid() && heap.Shared()
      requires heap.paging.dirs == {heap.paging.kernelDir} && KernelDirOk(heap.paging.mem, heap.paging.kernelDir)
      ensures this.heap == heap && Valid({}, {}) && spaces == map[]
      ensures fixed == View(heap.paging.mem, heap.paging.kernelDir)
    {
      this.heap := heap;
      base := heap.paging.pmm.managed - heap.paging.pmm.free - SetOf(heap.frames);
      spaces := map[];
      fixed := View(heap.paging.mem, heap.paging.kernelDir);
      new;
      BootOk();
    }

    lemma BootOk()
      requires heap.Valid() && heap.Shared() && spaces == map[]
      requires heap.paging.dirs == {heap.paging.kernelDir} && KernelDirOk(heap.paging.mem, heap.paging.kernelDir)
      requires base == heap.paging.pmm.managed - heap.paging.pmm.free - SetOf(heap.frames)
      requires fixed == View(heap.paging.mem, heap.paging.kernelDir)
      ensures Valid({}, {})
    {
      hide View, Seen, Pmm.Consistent, Tiled, Chained, NoFreePair, UsedBytes;
      assert AllFrames(spaces) == {} && AllDirs(spaces) == {};
      forall f | f in SetOf(heap.frames)
        ensures f in heap.paging.pmm.managed - heap.paging.pmm.free
      {
      }
      assert Owned(W(), {});
      assert SpacesOk(W()) && TablesOwned(W(), {});
      assert HeapSeen(W());
      assert DirsOk(W(), {}, {});
    }

    ghost function W(): World
      reads this, heap, heap.paging, heap.paging.pmm
    {
      World(heap.paging.mem, heap.paging.home, heap.paging.dirs, heap.paging.kernelDir, heap.paging.pmm.managed,
            heap.paging.pmm.free, base, heap.frames, heap.end, spaces, fixed)
    }

    /** The heap's own structure, apart from the pages behind it. */
    ghost predicate HeapOk()
      reads heap
    {
      heap.ready && heap.Structure() && |heap.frames| * PAGE_SIZE == heap.total && NoRepeats(heap.frames)
    }

    /** The invariant of all memory, while a step in progress holds `extra` and builds the directories `pending`. */
    ghost predicate Valid(pending: set<int>, extra: set<int>)
      reads this, heap, heap.paging, heap.paging.pmm, heap.paging.pmm.bitmap
    {
      HeapOk() && heap.paging.Valid() && MemOk(W(), pending, extra) && spaces.Keys <= Slots(MAX_PROCESSES)
    }

    lemma HeapValid(pending: set<int>, extra: set<int>)
      requires Valid(pending, extra)
      ensures heap.Valid() && heap.Shared()
      ensures IsTable(heap.paging.mem, heap.paging.kernelDir)
    {
      HeapOwner(pending, extra);
      HeapInDir(heap.paging.currentDir, pending, extra);
    }

    lemma HeapBlocks(pending: set<int>, extra: set<int>)
      requires Valid(pending, extra)
      ensures |heap.blocks| > 0 && Tiled(heap.blocks, HEAP_START, heap.end) && NoFreePair(heap.blocks)
      ensures heap.end % PAGE_SIZE == 0 && heap.end == HEAP_START + |heap.frames| * PAGE_SIZE
    {
      hide MemOk, Chained, UsedBytes, Pmm.Consistent, Paging.Valid;
    }

    /** The invariant counts frames. */
    lemma Counted(pending: set<int>, extra: set<int>)
      requires Valid(pending, extra)
      ensures |heap.paging.pmm.managed| - |heap.paging.pmm.free| ==
              |base| + (heap.end - HEAP_START) / PAGE_SIZE + 4 * |spaces| + |extra|
      ensures heap.end % PAGE_SIZE == 0
    {
      hide MemOk, Tiled, Chained, NoFreePair, UsedBytes, Pmm.Consistent;
      Conservation(W(), pending, extra);
      assert |heap.frames| == (heap.end - HEAP_START) / PAGE_SIZE;
    }

    lemma MemNow(pending: set<int>, extra: set<int>)
      requires Valid(pending, extra)
      ensures MemOk(W(), pending, extra) && (spaces.Keys <= Slots(MAX_PROCESSES))
    {
    }

    lemma HeapOwner(pending: set<int>, extra: set<int>)
      requires Valid(pending, extra)
      ensures heap.Owns()
    {
      hide View, WellFormed, HeapSeen, SpacesOk, AllFrames, Pmm.Consistent;
      DirsUsed(W(), pending, extra);
      forall f | f in heap.frames
        ensures f in SetOf(heap.frames)
      {
      }
    }

    lemma HeapShared(d: int, pending: set<int>, extra: set<int>)
      requires Valid(pending, extra) && d in heap.paging.dirs
      ensures var m, k := heap.paging.mem, heap.paging.kernelDir;
              && IsTable(m, d) && IsTable(m, k) && m[d][HEAP_ENTRY] == m[k][HEAP_ENTRY]
              && Seen(View(m, k), heap.frames) && |heap.frames| * PAGE_SIZE <= HEAP_LIMIT - HEAP_START
    {
      hide View, WellFormed, Seen, SpacesOk, Owned, TablesOwned, DirsOk, Pmm.Consistent, Paging.Valid, HeapOk;
    }

    lemma HeapInDir(d: int, pending: set<int>, extra: set<int>)
      requires Valid(pending, extra) && d in heap.paging.dirs
      ensures IsTable(heap.paging.mem, d) && Seen(View(heap.paging.mem, d), heap.frames)
    {
      hide View, MemOk, Paging.Valid, HeapOk;
      HeapShared(d, pending, extra);
      var m, k, fs := heap.paging.mem, heap.paging.kernelDir, heap.frames;
      forall i | 0 <= i < |fs|
        ensures LeadsTo(View(m, d), HEAP_PAGE + i, fs[i])
      {
        SeenAt(View(m, k), fs, i);
        SharedPte(m, d, k, HEAP_PAGE + i);
      }
    }

    // Single steps

    method SwitchTo(d: u32, ghost pending: set<int>, ghost extra: set<int>)
      requires Valid(pending, extra) && d in heap.paging.dirs
      modifies heap.paging
      ensures Valid(pending, extra) && W() == old(W()) && heap.paging.currentDir == d
    {
      hide MemOk, HeapOk, Pmm.Consistent, WellFormed;
      DirAligned(d, pending, extra);
      heap.paging.SwitchDirectory(d);
    }

    lemma DirFacts(d: int, pending: set<int>, extra: set<int>)
      requires Valid(pending, extra)
      ensures heap.paging.currentDir in heap.paging.dirs && heap.paging.kernelDir in heap.paging.dirs
      ensures pending <= heap.paging.dirs && 0 !in heap.paging.dirs
    {
      hide View, HeapSeen, SpacesOk, AllFrames, Pmm.Consistent, HeapOk;
      DirsUsed(W(), pending, extra);
    }

    lemma DirAligned(d: int, pending: set<int>, extra: set<int>)
      requires Valid(pending, extra) && d in heap.paging.dirs
      ensures d % PAGE_SIZE == 0 && d != 0
    {
      hide View, HeapSeen, SpacesOk, AllFrames, Pmm.Consistent;
      DirsUsed(W(), pending, extra);
    }

    /** Takes a frame for the step in progress; 0 when there is none. */
    method GetFrame(ghost pending: set<int>, ghost extra: set<int>) returns (f: u32)
      requires Valid(pending, extra)
      modifies heap.paging.pmm, heap.paging.pmm.bitmap
      ensures f == 0 <==> old(heap.paging.pmm.free) == {}
      ensures f == 0 ==> Valid(pending, extra) && W() == old(W())
      ensures f != 0 ==> Valid(pending, extra + {f}) && W() == old(W()).(free := old(heap.paging.pmm.free) - {f})
      ensures f != 0 ==>
              && f in old(heap.paging.pmm.free) && f !in extra && f !in heap.paging.dirs
              && f !in heap.paging.home && f % PAGE_SIZE == 0
    {
      hide MemOk, HeapOk, Pmm.Consistent, WellFormed;
      f := heap.paging.TakeFrame();
      if f != 0 {
        TakeFrame(old(W()), pending, extra, f);
      }
    }

    /** Gives back a frame of the step in progress. */
    method PutFrame(f: u32, ghost pending: set<int>, ghost extra: set<int>)
      requires Valid(pending, extra) && f in extra && f !in heap.paging.dirs && f !in heap.paging.home
      modifies heap.paging.pmm, heap.paging.pmm.bitmap
      ensures Valid(pending, extra - {f}) && W() == old(W()).(free := old(heap.paging.pmm.free) + {f})
    {
      hide MemOk, HeapOk, Pmm.Consistent, WellFormed;
      ReturnFrame(W(), pending, extra, f);
      heap.paging.ReturnFrame(f);
    }

    /** A fresh directory that shares the kernel's tables. */
    method NewDirectory() returns (ok: bool, d: u32)
      requires Valid({}, {})
      modifies heap.paging, heap.paging.pmm, heap.paging.pmm.bitmap
      ensures heap.paging.currentDir == old(heap.paging.currentDir)
      ensures ok <==> old(heap.paging.pmm.free) != {}
      ensures !ok ==> Valid({}, {}) && W() == old(W())
      ensures ok ==> Valid({d}, {d}) && Empty(heap.paging.mem, heap.paging.kernelDir, d)
      ensures ok ==> d in old(heap.paging.pmm.free) && d !in old(heap.paging.dirs)
      ensures ok ==> W() == old(W()).(mem := W().mem, dirs := old(heap.paging.dirs) + {d},
              free := old(heap.paging.pmm.free) - {d})
    {
      hide MemOk, HeapOk, Pmm.Consistent, WellFormed, View, CloneOf, Empty;
      HeapValid({}, {});
      ok, d := heap.paging.CloneKernelDirectory();
      if ok {
        CloneStep(old(W()), W(), {}, {}, d);
        assert {} + {d} == {d};
      }
    }

    /** Gives back a directory under construction whose window is empty. */
    method DropDirectory(d: u32, ghost extra: set<int>)
      requires Valid({d}, extra) && d in extra && d != heap.paging.currentDir
      modifies heap.paging, heap.paging.pmm, heap.paging.pmm.bitmap
      ensures Valid({}, extra - {d}) && heap.paging.currentDir == old(heap.paging.currentDir)
      ensures W() == old(W()).(dirs := old(heap.paging.dirs) - {d}, free := old(heap.paging.pmm.free) + {d})
    {
      hide MemOk, HeapOk, Pmm.Consistent, WellFormed;
      PendingFacts(d, extra);
      RetireDir(W(), W().(dirs := W().dirs - {d}, free := W().free + {d}), {d}, extra, d);
      assert {d} - {d} == {};
      heap.paging.ReturnDirectory(d);
    }

    lemma PendingFacts(d: int, extra: set<int>)
      requires Valid({d}, extra)
      ensures d in heap.paging.dirs && d != heap.paging.kernelDir && d !in heap.paging.home
      ensures d in heap.paging.pmm.managed && IsTable(heap.paging.mem, d)
      ensures IsTable(heap.paging.mem, heap.paging.kernelDir)
    {
      hide View, HeapSeen, SpacesOk, AllFrames, Pmm.Consistent;
    }

    // The user window of a directory under construction

    ghost predicate WindowIs(d: int, t: int, tab: seq<int>)
      reads heap.paging
    {
      && Window(heap.paging.mem, heap.paging.home, heap.paging.kernelDir, d, t, tab)
      && NotKernels(heap.paging.mem, heap.paging.kernelDir, t)
    }

    ghost predicate WindowEmpty(d: int)
      reads heap.paging
    {
      Empty(heap.paging.mem, heap.paging.kernelDir, d)
    }

    /** Maps the code page; needs one more frame, for the table. */
    method MapCode(d: u32, code: u32, ghost extra: set<int>) returns (ok: bool, ghost t: int)
      requires Valid({d}, extra) && heap.paging.currentDir == d && WindowEmpty(d) && code % PAGE_SIZE == 0
      modifies heap.paging, heap.paging.pmm, heap.paging.pmm.bitmap
      ensures heap.paging.currentDir == d && (ok <==> old(heap.paging.pmm.free) != {})
      ensures W() == old(W()).(mem := W().mem, home := W().home, free := W().free)
      ensures !ok ==> Valid({d}, extra) && WindowEmpty(d) && W() == old(W())
      ensures ok ==> t in old(heap.paging.pmm.free) && t !in extra && t != d && Valid({d}, extra + {t})
      ensures ok ==>
              && WindowIs(d, t, Zeros()[0 := code + USER_FLAGS])
              && heap.paging.home == old(heap.paging.home)[t := USER_ENTRY]
      ensures ok ==> heap.paging.pmm.free == old(heap.paging.pmm.free) - {t}
    {
      hide HeapOk, Pmm.Consistent, View, MemOk, WellFormed, Pmm.Valid;
      PendingFacts(d, extra);
      EmptyFacts(heap.paging.mem, heap.paging.kernelDir, d);
      ok, t := heap.paging.MapPage(Loader.CODE_BASE, code, USER_FLAGS);
      if ok {
        KernelMisses(old(W()), d, t, code);
        MapFirst(old(W()), W(), {d}, extra, d, t, code);
      }
    }

    lemma WindowStep(d: int, t: int, tab: seq<int>, extra: set<int>, j: int)
      requires Valid({d}, extra) && WindowIs(d, t, tab) && 0 <= j < ENTRIES
      ensures var m, home, k := heap.paging.mem, heap.paging.home, heap.paging.kernelDir;
              && d in heap.paging.dirs && k in heap.paging.dirs && k != d && t != k
              && IsTable(m, d) && IsTable(m, k) && IsTable(m, t)
              && Present(m[d][USER_ENTRY]) && UserBit(m[d][USER_ENTRY]) && Base(m[d][USER_ENTRY]) == t && m[t] == tab
              && |tab| == ENTRIES && (CODE_PAGE + j in View(m, d) <==> Present(tab[j]))
              && t in home && home[t] == USER_ENTRY && Reaches(m, home, d, t) && !Reaches(m, home, k, t)
              && WithUser(m[d][USER_ENTRY]) == m[d][USER_ENTRY] && Store(m, d, USER_ENTRY, m[d][USER_ENTRY]) == m
    {
      hide View, HeapSeen, SpacesOk, AllFrames, Pmm.Consistent, HeapOk, Owned, TablesOwned;
      PendingFacts(d, extra);
      WindowFacts(heap.paging.mem, heap.paging.dirs, heap.paging.home, heap.paging.kernelDir, d, t, tab, j);
      TableIsNotDir(W(), {d}, extra, t);
    }

    /** Maps the stack page; its table is there already, so this cannot fail. */
    method MapStack(d: u32, stack: u32, ghost t: int, ghost code: int, ghost extra: set<int>) returns (ok: bool)
      requires Valid({d}, extra) && heap.paging.currentDir == d && t in extra && stack % PAGE_SIZE == 0
      requires WindowIs(d, t, Zeros()[0 := code + USER_FLAGS])
      modifies heap.paging, heap.paging.pmm, heap.paging.pmm.bitmap
      ensures ok && heap.paging.currentDir == d && W() == old(W()).(mem := W().mem)
      ensures Valid({d}, extra) && WindowIs(d, t, UserTable(code, stack))
    {
      hide HeapOk, Pmm.Consistent, View, MemOk, WellFormed, Pmm.Valid, Reaches, WithUser, Window, NotKernels;
      WindowStep(d, t, Zeros()[0 := code + USER_FLAGS], extra, 1);
      assert !Present(0);
      ghost var u;
      ok, u := heap.paging.MapPage(Loader.STACK_BASE, stack, USER_FLAGS);
      KernelUnreached(old(W()).mem, W().mem, W().home, W().kernel, t, 1, stack + USER_FLAGS);
      TableWritten(old(W()), W(), d, t, Zeros()[0 := code + USER_FLAGS], extra, 1, stack + USER_FLAGS);
    }

    /** Takes page `j` out of the user window. */
    method UnmapAt(d: u32, j: nat, ghost t: int, ghost tab: seq<int>, ghost extra: set<int>)
      requires Valid({d}, extra) && heap.paging.currentDir == d && t in extra && j < 2 && WindowIs(d, t, tab)
      modifies heap.paging
      ensures heap.paging.currentDir == d && W() == old(W()).(mem := W().mem)
      ensures Valid({d}, extra) && |tab| == ENTRIES && WindowIs(d, t, if Present(tab[j]) then tab[j := 0] else tab)
    {
      hide HeapOk, Pmm.Consistent, View, MemOk, WellFormed, Pmm.Valid, Reaches, WithUser, Window, NotKernels;
      WindowStep(d, t, tab, extra, j);
      var ok := heap.paging.UnmapPage(Loader.CODE_BASE + j * PAGE_SIZE);
      if ok {
        KernelUnreached(old(W()).mem, W().mem, W().home, W().kernel, t, j, 0);
        TableWritten(old(W()), W(), d, t, tab, extra, j, 0);
      }
    }

    /** Unmapping a page of an empty window does nothing. */
    method UnmapNothing(d: u32, j: nat, ghost extra: set<int>)
      requires Valid({d}, extra) && heap.paging.currentDir == d && j < 2 && WindowEmpty(d)
      modifies heap.paging
      ensures heap.paging.currentDir == d && W() == old(W()) && Valid({d}, extra) && WindowEmpty(d)
    {
      hide HeapOk, Pmm.Consistent, View, MemOk, WellFormed, Pmm.Valid;
      PendingFacts(d, extra);
      EmptyFacts(heap.paging.mem, heap.paging.kernelDir, d);
      var ok := heap.paging.UnmapPage(Loader.CODE_BASE + j * PAGE_SIZE);
    }

    /** Gives the window's table back once it maps nothing. */
    method ReleaseWindow(d: u32, ghost t: int, ghost tab: seq<int>, ghost extra: set<int>)
      requires Valid({d}, extra) && t in extra && WindowIs(d, t, tab) && EmptyTable(tab)
      modifies heap.paging, heap.paging.pmm, heap.paging.pmm.bitmap
      ensures heap.paging.currentDir == old(heap.paging.currentDir)
      ensures W() == old(W()).(mem := W().mem, home := W().home, free := old(heap.paging.pmm.free) + {t})
      ensures t != d && Valid({d}, extra - {t}) && WindowEmpty(d)
      ensures heap.paging.home == old(heap.paging.home) - {t}
    {
      hide HeapOk, Pmm.Consistent, View, MemOk, WellFormed, Pmm.Valid, Reaches, WithUser, Window, NotKernels;
      WindowStep(d, t, tab, extra, 0);
      Private(d, t, tab, extra);
      DirAligned(d, {d}, extra);
      ghost var freed := heap.paging.ReleaseUserTable(d, Loader.CODE_BASE);
      CutWindow(old(W()), W(), {d}, extra, d, t, tab);
    }

    /** No other directory refers to the table of a window under construction. */
    lemma Private(d: int, t: int, tab: seq<int>, extra: set<int>)
      requires Valid({d}, extra) && t in extra && WindowIs(d, t, tab)
      ensures d in heap.paging.dirs && heap.paging.PrivateTable(d, USER_ENTRY)
    {
      hide HeapOk, Pmm.Consistent, View, HeapSeen, TablesOwned, Pmm.Valid;
      WindowStep(d, t, tab, extra, 0);
      forall x | x in heap.paging.dirs && x != d
        ensures !Reaches(heap.paging.mem, heap.paging.home, x, t)
      {
        if x != heap.paging.kernelDir {
          var s :| s in spaces && spaces[s].dir == x;
          OwnTable(W(), s, t);
        }
      }
    }

    // The heap, used while address spaces are live

    /** What an allocation or a release never changes. */
    twostate predicate SpacesKept()
      reads heap, heap.paging, heap.paging.pmm
    {
      && heap.paging.currentDir == old(heap.paging.currentDir) && heap.paging.dirs == old(heap.paging.dirs)
      && heap.paging.kernelDir == old(heap.paging.kernelDir)
      && (forall d, t, tab :: old(WindowIs(d, t, tab)) && d in heap.paging.dirs ==> WindowIs(d, t, tab))
      && (forall d :: old(WindowEmpty(d)) && d in heap.paging.dirs ==> WindowEmpty(d))
    }

    /** Allocates from the heap: with every page at the price of a frame, exactly when the request is affordable. */
    method Alloc(size: u32, ghost pending: set<int>, ghost extra: set<int>)
      returns (p: int, ghost b: Block, ghost k: int, ghost n: nat)
      requires Valid(pending, extra) && 0 < size <= MAX_REQUEST
      requires heap.end + AlignUp8(size) + HEADER + GROW_PAGES * PAGE_SIZE <= HEAP_LIMIT
      modifies heap, heap.paging, heap.paging.pmm, heap.paging.pmm.bitmap
      ensures Valid(pending, extra) && SpacesKept() && heap.Valid()
      ensures heap.paging.home == old(heap.paging.home) && heap.paging.pmm.managed == old(heap.paging.pmm.managed)
      ensures old(heap.frames) <= heap.frames && heap.end == old(heap.end) + n * PAGE_SIZE
      ensures n * PAGE_SIZE < AlignUp8(size) + HEADER + GROW_PAGES * PAGE_SIZE
      ensures |old(heap.blocks)| > 0 && |heap.paging.pmm.free| == |old(heap.paging.pmm.free)| - n
      ensures Searched(old(heap.blocks), |old(heap.paging.pmm.free)|, AlignUp8(size), n, p != 0)
      ensures p != 0 ==>
                && p == Payload(b) && size <= b.size && b !in old(Live(heap.blocks))
                && Live(heap.blocks) == old(Live(heap.blocks)) + {b}
                && var grown := GrowN(old(heap.blocks), n);
                   && 0 <= k < |grown| && Fits(grown[k], AlignUp8(size))
                   && heap.blocks == Take(grown, k, AlignUp8(size)) && k < |heap.blocks| && b == heap.blocks[k]
      ensures p == 0 ==> Live(heap.blocks) == old(Live(heap.blocks)) && heap.blocks == GrowN(old(heap.blocks), n)
      ensures SamePayloads(old(heap.mem), heap.mem, old(Live(heap.blocks)))
    {
      hide HeapOk, Pmm.Consistent, View, MemOk, WellFormed, Pmm.Valid, SamePayloads, Live, Take, GrowN, Fits,
           SharedTables;
      hide Growth, Grown, Obtainable, Searched, Heap.Valid, Heap.Place, Paging.Valid;
      HeapValid(pending, extra);
      HeapBlocks(pending, extra);
      heap.PlainPlace();
      p, b, k, n := heap.Kmalloc(size, HEAP_LIMIT);
      AfterGrowth(old(W()), pending, extra, old(heap.HeapTable()));
      GrowthFacts(old(W()), W(), pending, extra, old(heap.HeapTable()));
      GrowthFrames(old(heap.frames), heap.frames, old(heap.paging.pmm.free), heap.paging.pmm.free,
                   old(heap.paging.mem), heap.paging.mem, old(heap.HeapTable()));
      PlainSearched(old(heap.blocks), old(heap.Place()), AlignUp8(size), n, p != 0, |heap.paging.pmm.free|,
          HEAP_LIMIT / PAGE_SIZE);
    }

    /** The invariant, rebuilt after the heap grew. */
    lemma AfterGrowth(was: World, pending: set<int>, extra: set<int>, t: int)
      requires MemOk(was, pending, extra) && heap.Valid() && heap.Shared() && spaces.Keys <= Slots(MAX_PROCESSES)
      requires W() == was.(mem := W().mem, free := W().free, frames := W().frames, end := W().end)
      requires IsTable(was.mem, was.kernel) && t == Base(was.mem[was.kernel][HEAP_ENTRY])
      requires Growth(was.frames, W().frames, was.free, W().free, was.mem, W().mem, t)
      ensures Valid(pending, extra)
    {
      hide Pmm.Consistent, View, Pmm.Valid, Growth, Seen, SpacesOk, Owned, TablesOwned;
      heap.SeenByAll(heap.paging.kernelDir);
      heap.EndPage();
      GrowthTable(was, W(), pending, extra, t);
      FixedStays(was, W(), t);
      HeapStep(was, W(), pending, extra, t);
    }

    method Dealloc(ptr: int, ghost b: Block, ghost pending: set<int>, ghost extra: set<int>) returns (ghost k: int)
      requires Valid(pending, extra) && b in Live(heap.blocks) && Payload(b) == ptr
      modifies heap
      ensures Valid(pending, extra) && W() == old(W()) && Live(heap.blocks) == old(Live(heap.blocks)) - {b}
      ensures 0 <= k < |old(heap.blocks)| && old(heap.blocks)[k] == b && heap.blocks == Release(old(heap.blocks), k)
      ensures SamePayloads(old(heap.mem), heap.mem, Live(heap.blocks))
    {
      HeapValid(pending, extra);
      OnePayload(heap.blocks, HEAP_START, heap.end, b);
      hide Pmm.Consistent, View, MemOk, WellFormed, Pmm.Valid, SamePayloads, Tiled, Chained, NoFreePair, UsedBytes,
           Release;
      ghost var freed;
      freed, k := heap.Kfree(ptr);
    }

    /** Undoes a construction: unmaps what was mapped, gives back table and frames, reloads `prev`. */
    method Undo(cr3: u32, prev: u32, code: u32, stack: u32, codeMapped: bool, stackMapped: bool, ghost t: int)
      requires heap.paging.currentDir == cr3 && prev in heap.paging.dirs
      requires Valid({cr3}, {cr3} + Held(code, stack, codeMapped, t))
      requires cr3 != code && cr3 != stack && cr3 != t
      requires (code != 0 ==> code != stack) && code % PAGE_SIZE == 0 && stack % PAGE_SIZE == 0
      requires code != 0 ==> code !in heap.paging.home
      requires stack != 0 ==> stack !in heap.paging.home
      requires codeMapped ==> code != 0 && stack != 0 && t != code && t != stack
      requires codeMapped ==>
              WindowIs(cr3, t, if stackMapped then UserTable(code, stack) else Zeros()[0 := code + USER_FLAGS])
      requires !codeMapped ==> !stackMapped && WindowEmpty(cr3)
      modifies heap.paging, heap.paging.pmm, heap.paging.pmm.bitmap
      ensures Valid({cr3}, {cr3}) && WindowEmpty(cr3) && heap.paging.currentDir == prev
      ensures heap.paging.dirs == old(heap.paging.dirs) && heap.paging.kernelDir == old(heap.paging.kernelDir)
      ensures heap.paging.pmm.managed == old(heap.paging.pmm.managed)
    {
      hide Valid, Window, NotKernels, Empty, UserTable;
      ghost var extra := {cr3} + Held(code, stack, codeMapped, t);
      ghost var tab := if stackMapped then UserTable(code, stack) else Zeros()[0 := code + USER_FLAGS];
      TabFacts(code, stack);
      if stackMapped {
        UnmapAt(cr3, 1, t, tab, extra);
        tab := tab[1 := 0];
      }
      if codeMapped {
        UnmapAt(cr3, 0, t, tab, extra);
        tab := tab[0 := 0];
        ReleaseWindow(cr3, t, tab, extra);
        extra := extra - {t};
        assert extra == {cr3} + Held(code, stack, false, t);
      }
      NotDirs(cr3, extra);
      if stack != 0 {
        PutFrame(stack, {cr3}, extra);
        extra := extra - {stack};
      }
      assert extra == {cr3} + Held(code, 0, false, t);
      if code != 0 {
        PutFrame(code, {cr3}, extra);
        extra := extra - {code};
      }
      assert extra == {cr3};
      SwitchTo(prev, {cr3}, {cr3});
    }

    /** The only directory among the frames of a step in progress is the pending one. */
    lemma NotDirs(d: int, extra: set<int>)
      requires Valid({d}, extra)
      ensures forall f :: f in extra && f != d ==> f !in heap.paging.dirs
    {
      hide View, HeapSeen, SpacesOk, AllFrames, Pmm.Consistent, HeapOk;
      DirsUsed(W(), {d}, extra);
      DirsInFrames(W());
    }

    /**
     Builds the address space of a process in the cloned directory `cr3`: two frames, their
     table, and the program in the code page. It succeeds exactly when three frames are left
     and the program text is not malformed or cannot be buffered. Every failure gives everything
     back; every path reloads the directory that was loaded before.
     */
    method BuildUserImage(cr3: u32, text: Option<CText>)
      returns (ok: bool, code: u32, stack: u32, entry: u32, page: seq<u8>, ghost t: int)
      requires Valid({cr3}, {cr3}) && WindowEmpty(cr3) && cr3 != heap.paging.currentDir
      requires heap.end + IMAGE_ROOM <= HEAP_LIMIT && Loader.TablesFit(text)
      modifies heap, heap.paging, heap.paging.pmm, heap.paging.pmm.bitmap
      ensures heap.paging.currentDir == old(heap.paging.currentDir) && heap.paging.dirs == old(heap.paging.dirs)
      ensures heap.paging.kernelDir == old(heap.paging.kernelDir)
      ensures heap.paging.pmm.managed == old(heap.paging.pmm.managed)
      ensures Live(heap.blocks) == old(Live(heap.blocks)) && SamePayloads(old(heap.mem), heap.mem, Live(heap.blocks))
      ensures old(heap.frames) <= heap.frames && old(heap.end) <= heap.end <= old(heap.end) + IMAGE_ROOM
      ensures |old(heap.blocks)| > 0 && var free := |old(heap.paging.pmm.free)|;
              && (free < 3 ==> heap.blocks == old(heap.blocks) && heap.end == old(heap.end))
              && (free >= 3 ==> heap.blocks == Buffered(old(heap.blocks), free - 3))
              && (free >= 3 ==> heap.end == old(heap.end) + ImagePages(old(heap.blocks), free - 3) * PAGE_SIZE)
              && (ok <==> free >= 3 && !(CanBuffer(old(heap.blocks), free - 3)
                                         && Loader.OutcomeOf(text) == Loader.Malformed))
      ensures !ok ==> Valid({cr3}, {cr3}) && WindowEmpty(cr3)
      ensures ok ==> FourFrames(Space(cr3, t, code, stack)) && Valid({cr3}, FramesOf(Space(cr3, t, code, stack)))
      ensures ok ==> WindowIs(cr3, t, UserTable(code, stack)) && code % PAGE_SIZE == 0 && stack % PAGE_SIZE == 0
      ensures ok ==> PlainPages(heap.paging.home, Space(cr3, t, code, stack))
      ensures ok ==> Program(text, CanBuffer(old(heap.blocks), |old(heap.paging.pmm.free)| - 3), page, entry)
    {
      hide Valid, Window, NotKernels, Empty, UserTable, SamePayloads, Live, Loader.OutcomeOf, Loader.TablesFit;
      hide CanBuffer, Buffered, ImagePages, Program;
      ok, code, stack, entry, page, t := false, 0, 0, Loader.CODE_BASE, [], 0;
      var prev := heap.paging.currentDir;
      HeapBlocks({cr3}, {cr3});
      DirFacts(prev, {cr3}, {cr3});
      AgreesPayloads(heap.mem, Live(heap.blocks));
      SwitchTo(cr3, {cr3}, {cr3});
      UnmapNothing(cr3, 0, {cr3});
      UnmapNothing(cr3, 1, {cr3});
      ok, code, stack, t := TakeAndMap(cr3);
      if !ok {
        Undo(cr3, prev, code, stack, false, false, t);
        return;
      }
      ghost var extra := {cr3} + Held(code, stack, true, t);
      var status;
      status, entry, page := LoadInto(text, cr3, t, UserTable(code, stack), extra);
      if status < 0 {
        Undo(cr3, prev, code, stack, true, true, t);
        ok := false;
        return;
      }
      SwitchTo(prev, {cr3}, extra);
      assert extra == FramesOf(Space(cr3, t, code, stack));
    }

    /** Loads the program by way of a buffer on the heap; when none can be had, the built-in program is used. */
    method LoadInto(text: Option<CText>, ghost d: int, ghost t: int, ghost tab: seq<int>, ghost extra: set<int>)
      returns (status: int, entry: u32, page: seq<u8>)
      requires Valid({d}, extra) && WindowIs(d, t, tab) && d in heap.paging.dirs
      requires heap.end + IMAGE_ROOM <= HEAP_LIMIT && Loader.TablesFit(text)
      modifies heap, heap.paging, heap.paging.pmm, heap.paging.pmm.bitmap
      ensures Valid({d}, extra) && WindowIs(d, t, tab)
      ensures heap.paging.currentDir == old(heap.paging.currentDir) && heap.paging.dirs == old(heap.paging.dirs)
      ensures heap.paging.kernelDir == old(heap.paging.kernelDir) && heap.paging.home == old(heap.paging.home)
      ensures heap.paging.pmm.managed == old(heap.paging.pmm.managed)
      ensures Live(heap.blocks) == old(Live(heap.blocks)) && SamePayloads(old(heap.mem), heap.mem, Live(heap.blocks))
      ensures old(heap.frames) <= heap.frames && old(heap.end) <= heap.end <= old(heap.end) + IMAGE_ROOM
      ensures |old(heap.blocks)| > 0 && heap.blocks == Buffered(old(heap.blocks), |old(heap.paging.pmm.free)|)
      ensures heap.end == old(heap.end) + ImagePages(old(heap.blocks), |old(heap.paging.pmm.free)|) * PAGE_SIZE
      ensures status < 0 <==>
                CanBuffer(old(heap.blocks), |old(heap.paging.pmm.free)|) && Loader.OutcomeOf(text) == Loader.Malformed
      ensures status >= 0 ==> Program(text, CanBuffer(old(heap.blocks), |old(heap.paging.pmm.free)|), page, entry)
    {
      hide Valid, WindowIs, WindowEmpty, SamePayloads, Live, Loader.OutcomeOf, Loader.TablesFit;
      hide Searched, CanHave, PagesFor, GrowN, Take, Release, Fits, Tiled, NoFreePair, Heap.Valid;
      status, entry := 0, Loader.CODE_BASE;
      var code := new u8[Loader.CODE_SIZE];
      ImageRoom();
      HeapBlocks({d}, extra);
      ghost var bs := heap.blocks;
      ghost var b, k, n;
      var image;
      image, b, k, n := Alloc(Loader.IMAGE_MAX, {d}, extra);
      SmallSearch(bs, HEAP_START, old(heap.end), |old(heap.paging.pmm.free)|, Loader.IMAGE_MAX, n, image != 0);
      if image != 0 {
        label loaded:
        var buffer := new u8[Loader.IMAGE_MAX];
        var e;
        status, e := Loader.LoadProgram(text, buffer, code);
        if status == 1 {
          entry := e;
        }
        AllocIsLive(heap.blocks, old(Live(heap.blocks)), b);
        ghost var j := Dealloc(image, b, {d}, extra);
        AfterDealloc(old(heap.mem), old@loaded(heap.mem), heap.mem, old(Live(heap.blocks)), b, Live(heap.blocks));
        Restored(bs, HEAP_START, old(heap.end), n, k, j, Loader.IMAGE_MAX);
      }
      page := code[..];
    }

    lemma ImageRoom()
      requires heap.end + IMAGE_ROOM <= HEAP_LIMIT
      ensures heap.end + AlignUp8(Loader.IMAGE_MAX) + HEADER + GROW_PAGES * PAGE_SIZE <= HEAP_LIMIT
      ensures AlignUp8(Loader.IMAGE_MAX) == Loader.IMAGE_MAX && Small(Loader.IMAGE_MAX)
    {
    }

    /** Takes the code and stack frames and maps both; 0 marks a frame that could not be had. */
    method TakeAndMap(cr3: u32) returns (ok: bool, code: u32, stack: u32, ghost t: int)
      requires Valid({cr3}, {cr3}) && WindowEmpty(cr3) && heap.paging.currentDir == cr3
      modifies heap.paging, heap.paging.pmm, heap.paging.pmm.bitmap
      ensures heap.paging.currentDir == cr3 && heap.paging.dirs == old(heap.paging.dirs)
      ensures heap.paging.kernelDir == old(heap.paging.kernelDir)
      ensures heap.paging.pmm.managed == old(heap.paging.pmm.managed)
      ensures ok <==> |old(heap.paging.pmm.free)| >= 3
      ensures ok ==> |heap.paging.pmm.free| == |old(heap.paging.pmm.free)| - 3
      ensures Valid({cr3}, {cr3} + Held(code, stack, ok, t))
      ensures cr3 != code && cr3 != stack && (code != 0 ==> code != stack)
      ensures code % PAGE_SIZE == 0 && stack % PAGE_SIZE == 0
      ensures (code != 0 ==> code !in heap.paging.home) && (stack != 0 ==> stack !in heap.paging.home)
      ensures !ok ==> WindowEmpty(cr3) && t == 0
      ensures ok ==>
              code != 0 && stack != 0 && t != code && t != stack && t != cr3 && WindowIs(cr3, t, UserTable(code, stack))
      ensures cr3 != t
    {
      hide Valid, WindowIs, WindowEmpty, UserTable, Zeros;
      ok, t := false, 0;
      Counted({cr3}, {cr3});
      code, stack := TakeTwo(cr3);
      if code == 0 || stack == 0 {
        return;
      }
      ghost var extra := {cr3} + Held(code, stack, false, 0);
      ok, t := MapCode(cr3, code, extra);
      if !ok {
        t := 0;
        return;
      }
      var mapped := MapStack(cr3, stack, t, code, extra + {t});
      assert extra + {t} == {cr3} + Held(code, stack, true, t) == {cr3, code, stack, t};
      Counted({cr3}, extra + {t});
    }

    method TakeTwo(cr3: u32) returns (code: u32, stack: u32)
      requires Valid({cr3}, {cr3}) && WindowEmpty(cr3)
      modifies heap.paging.pmm, heap.paging.pmm.bitmap
      ensures heap.paging.pmm.managed == old(heap.paging.pmm.managed)
      ensures WindowEmpty(cr3) && Valid({cr3}, {cr3} + Held(code, stack, false, 0))
      ensures |old(heap.paging.pmm.free)| >= 3 <==> code != 0 && stack != 0 && heap.paging.pmm.free != {}
      ensures cr3 != 0 && cr3 != code && cr3 != stack && (code != 0 ==> code != stack)
      ensures code % PAGE_SIZE == 0 && stack % PAGE_SIZE == 0
      ensures (code != 0 ==> code !in heap.paging.home) && (stack != 0 ==> stack !in heap.paging.home)
    {
      hide Valid, WindowEmpty, Held;
      DirFacts(cr3, {cr3}, {cr3});
      ghost var free0 := heap.paging.pmm.free;
      code := GetFrame({cr3}, {cr3});
      HeldSteps(cr3, code, 0);
      ghost var free1 := heap.paging.pmm.free;
      stack := GetFrame({cr3}, {cr3} + Held(code, 0, false, 0));
      HeldSteps(cr3, code, stack);
      CountFrames(free0, free1, heap.paging.pmm.free, code, stack);
    }

    /** A finished address space, still held by the step that built it. */
    ghost predicate Built(sp: Space)
      reads heap.paging
    {
      && FourFrames(sp) && WindowIs(sp.dir, sp.table, UserTable(sp.code, sp.stack)) && PlainPages(heap.paging.home, sp)
      && sp.code % PAGE_SIZE == 0 && sp.stack % PAGE_SIZE == 0
    }

    /** Clones the kernel directory and builds an address space in it; all or nothing. */
    method CreateSpace(text: Option<CText>)
      returns (ok: bool, cr3: u32, code: u32, stack: u32, entry: u32, page: seq<u8>, ghost sp: Space)
      requires Valid({}, {}) && heap.end + IMAGE_ROOM <= HEAP_LIMIT && Loader.TablesFit(text)
      modifies heap, heap.paging, heap.paging.pmm, heap.paging.pmm.bitmap
      ensures heap.paging.currentDir == old(heap.paging.currentDir)
      ensures heap.paging.kernelDir == old(heap.paging.kernelDir)
      ensures heap.paging.pmm.managed == old(heap.paging.pmm.managed)
      ensures Live(heap.blocks) == old(Live(heap.blocks)) && SamePayloads(old(heap.mem), heap.mem, Live(heap.blocks))
      ensures old(heap.frames) <= heap.frames && old(heap.end) <= heap.end <= old(heap.end) + IMAGE_ROOM
      ensures |old(heap.blocks)| > 0 && var free := |old(heap.paging.pmm.free)|;
              && heap.blocks == GrowN(old(heap.blocks), SpacePages(old(heap.blocks), free))
              && heap.end == old(heap.end) + SpacePages(old(heap.blocks), free) * PAGE_SIZE
              && (ok <==> free >= 4 && !(CanBuffer(old(heap.blocks), free - 4)
                                         && Loader.OutcomeOf(text) == Loader.Malformed))
      ensures !ok ==> Valid({}, {}) && heap.paging.dirs == old(heap.paging.dirs)
      ensures ok ==> Valid({cr3}, FramesOf(sp)) && Built(sp) && sp == Space(cr3, sp.table, code, stack)
      ensures ok ==> cr3 != heap.paging.currentDir && cr3 in heap.paging.dirs
      ensures ok ==> Program(text, CanBuffer(old(heap.blocks), |old(heap.paging.pmm.free)| - 4), page, entry)
    {
      hide Valid, Window, NotKernels, Empty, UserTable, SamePayloads, Live, Loader.OutcomeOf, Loader.TablesFit;
      hide CanBuffer, Buffered, ImagePages, Program, GrowN;
      ok, cr3, code, stack, entry, page, sp := false, 0, 0, 0, 0, [], Space(0, 0, 0, 0);
      AgreesPayloads(heap.mem, Live(heap.blocks));
      HeapBlocks({}, {});
      SpaceBlocks(heap.blocks, |heap.paging.pmm.free|);
      DirFacts(0, {}, {});
      ok, cr3 := NewDirectory();
      if !ok {
        return;
      }
      assert |old(heap.paging.pmm.free)| == |heap.paging.pmm.free| + 1;
      DirFacts(0, {cr3}, {cr3});
      ghost var t;
      ok, code, stack, entry, page, t := BuildUserImage(cr3, text);
      if !ok {
        DropDirectory(cr3, {cr3});
        assert {cr3} - {cr3} == {};
        return;
      }
      sp := Space(cr3, t, code, stack);
    }

    /** Empties the user window of a directory and gives its table back; the loaded directory stays loaded. */
    method UnmapUserPages(cr3: u32, ghost sp: Space)
      requires Valid({cr3}, FramesOf(sp)) && Built(sp) && sp.dir == cr3
      modifies heap.paging, heap.paging.pmm, heap.paging.pmm.bitmap
      ensures Valid({cr3}, {cr3, sp.code, sp.stack}) && WindowEmpty(cr3) && PlainPages(heap.paging.home, sp)
      ensures heap.paging.currentDir == old(heap.paging.currentDir)
      ensures heap.paging.dirs == old(heap.paging.dirs) && heap.paging.kernelDir == old(heap.paging.kernelDir)
      ensures heap.paging.pmm.managed == old(heap.paging.pmm.managed)
    {
      hide Valid, Window, NotKernels, Empty, UserTable;
      DirFacts(cr3, {cr3}, FramesOf(sp));
      TabFacts(sp.code, sp.stack);
      ghost var tab := UserTable(sp.code, sp.stack);
      var prev := heap.paging.currentDir;
      SwitchTo(cr3, {cr3}, FramesOf(sp));
      UnmapAt(cr3, 0, sp.table, tab, FramesOf(sp));
      UnmapAt(cr3, 1, sp.table, tab[0 := 0], FramesOf(sp));
      SwitchTo(prev, {cr3}, FramesOf(sp));
      assert tab[0 := 0][1 := 0] == tab[1 := 0][0 := 0];
      ReleaseWindow(cr3, sp.table, tab[0 := 0][1 := 0], FramesOf(sp));
      assert FramesOf(sp) - {sp.table} == {cr3, sp.code, sp.stack};
    }

    /** Gives back everything of an address space that is not loaded. */
    method Dismantle(cr3: u32, code: u32, stack: u32, ghost sp: Space)
      requires Valid({cr3}, FramesOf(sp)) && Built(sp) && sp == Space(cr3, sp.table, code, stack)
      requires cr3 != heap.paging.currentDir
      modifies heap.paging, heap.paging.pmm, heap.paging.pmm.bitmap
      ensures Valid({}, {}) && heap.paging.currentDir == old(heap.paging.currentDir)
      ensures heap.paging.kernelDir == old(heap.paging.kernelDir) && heap.paging.dirs == old(heap.paging.dirs) - {cr3}
      ensures heap.paging.pmm.managed == old(heap.paging.pmm.managed)
    {
      hide Valid, WindowIs, WindowEmpty, UserTable;
      UnmapUserPages(cr3, sp);
      NotDirs(cr3, {cr3, code, stack});
      PutFrame(stack, {cr3}, {cr3, code, stack});
      assert {cr3, code, stack} - {stack} == {cr3, code};
      PutFrame(code, {cr3}, {cr3, code});
      assert {cr3, code} - {code} == {cr3};
      DropDirectory(cr3, {cr3});
      assert {cr3} - {cr3} == {};
    }

    /** The same for a process that has exited; the directory goes first here. */
    method DismantleExited(cr3: u32, code: u32, stack: u32, ghost sp: Space)
      requires Valid({cr3}, FramesOf(sp)) && Built(sp) && sp == Space(cr3, sp.table, code, stack)
      requires cr3 != heap.paging.currentDir
      modifies heap.paging, heap.paging.pmm, heap.paging.pmm.bitmap
      ensures Valid({}, {}) && heap.paging.currentDir == old(heap.paging.currentDir)
      ensures heap.paging.kernelDir == old(heap.paging.kernelDir) && heap.paging.dirs == old(heap.paging.dirs) - {cr3}
      ensures heap.paging.pmm.managed == old(heap.paging.pmm.managed)
    {
      hide Valid, WindowIs, WindowEmpty, UserTable;
      UnmapUserPages(cr3, sp);
      NotDirs(cr3, {cr3, code, stack});
      DropDirectory(cr3, {cr3, code, stack});
      assert {cr3, code, stack} - {cr3} == {code, stack};
      PutFrame(code, {}, {code, stack});
      assert {code, stack} - {code} == {stack};
      PutFrame(stack, {}, {stack});
      assert {stack} - {stack} == {};
    }

    /** Hands a finished address space to process slot `s`. */
    ghost method AdoptSpace(s: int, sp: Space)
      requires Valid({sp.dir}, FramesOf(sp)) && Built(sp) && s !in spaces && 0 <= s < MAX_PROCESSES
      modifies this`spaces
      ensures Valid({}, {}) && spaces == old(spaces)[s := sp]
    {
      hide View, WellFormed, HeapSeen, SpacesOk, Owned, TablesOwned, DirsOk, UserTable, HeapOk, Pmm.Consistent;
      assert {sp.dir} * FramesOf(sp) == {sp.dir};
      Adopt(W(), W().(spaces := spaces[s := sp]), {sp.dir}, FramesOf(sp), s, sp);
      assert {sp.dir} - {sp.dir} == {} && FramesOf(sp) - FramesOf(sp) == {};
      spaces := spaces[s := sp];
    }

    /** Takes the address space of process slot `s` away from it. */
    ghost method AbandonSpace(s: int) returns (sp: Space)
      requires Valid({}, {}) && s in spaces
      modifies this`spaces
      ensures sp == old(spaces)[s] && Valid({sp.dir}, FramesOf(sp)) && Built(sp) && spaces == old(spaces) - {s}
    {
      hide View, WellFormed, MemOk, UserTable, HeapOk, Pmm.Consistent;
      sp := spaces[s];
      SpaceAligned(s);
      Abandon(W(), W().(spaces := spaces - {s}), s);
      spaces := spaces - {s};
    }

    lemma FramesAligned()
      requires Valid({}, {})
      ensures forall f :: f in heap.frames ==> f % PAGE_SIZE == 0
      ensures heap.end == HEAP_START + |heap.frames| * PAGE_SIZE
    {
      hide View, MemOk, WellFormed, Tiled, Chained, NoFreePair, UsedBytes, Pmm.Consistent, Seen;
      HeapValid({}, {});
    }

    lemma SpaceAligned(s: int)
      requires Valid({}, {}) && s in spaces
      ensures spaces[s].code % PAGE_SIZE == 0 && spaces[s].stack % PAGE_SIZE == 0 && spaces[s].dir != 0
      ensures spaces[s].dir in heap.paging.dirs && spaces[s].dir != heap.paging.kernelDir
    {
      hide View, WellFormed, HeapSeen, TablesOwned, HeapOk, Pmm.Consistent, Window;
      assert FramesOf(spaces[s]) <= AllFrames(spaces);
      assert spaces[s].code in FramesOf(spaces[s]) && spaces[s].stack in FramesOf(spaces[s])
             && spaces[s].dir in FramesOf(spaces[s]);
      assert spaces[s].dir in AllDirs(spaces);
    }
  }

  /** The frames that a failed construction has to give back, besides the directory. */
  ghost function Held(code: int, stack: int, mapped: bool, t: int): set<int> {
    (if code != 0 then {code} else {}) + (if stack != 0 then {stack} else {}) + (if mapped then {t} else {})
  }

  lemma HeldSteps(d: int, code: int, stack: int)
    ensures {d} + Held(code, 0, false, 0) == if code != 0 then {d} + {code} else {d}
    ensures {d} + Held(code, stack, false, 0) ==
            if stack != 0 then {d} + Held(code, 0, false, 0) + {stack} else {d} + Held(code, 0, false, 0)
    ensures forall f :: f in Held(code, 0, false, 0) <==> f == code && code != 0
  {
  }

  /** What a new process starts with: its program when there is one and a buffer, else the built-in one. */
  ghost predicate Program(text: Option<CText>, buffered: bool, page: seq<u8>, entry: u32) {
    if buffered && Loader.OutcomeOf(text).Loaded? then Loader.OutcomeOf(text) == Loader.Loaded(page, entry)
    else entry == Loader.CODE_BASE
  }

  /** A buffer that was had and given back leaves the blocks of the grown heap. */
  lemma Restored(bs: seq<Block>, start: int, end: int, n: nat, k: int, j: int, want: int)
    requires Tiled(bs, start, end) && NoFreePair(bs) && Request(want)
    requires var grown := GrowN(bs, n);
             && 0 <= k < |grown| && Fits(grown[k], want) && k < |Take(grown, k, want)|
             && 0 <= j < |Take(grown, k, want)|
             && Take(grown, k, want)[j] == Take(grown, k, want)[k]
    ensures Release(Take(GrowN(bs, n), k, want), j) == GrowN(bs, n)
  {
    hide Take, Release, NoFreePair, Fits, UsedBytes, Live;
    var grown := GrowN(bs, n);
    GrowNKeeps(bs, start, end, n);
    TakeRelease(grown, start, end + n * PAGE_SIZE, k, want);
    TakeTiled(grown, start, end + n * PAGE_SIZE, k, want);
    AllOrdered(Take(grown, k, want), start, end + n * PAGE_SIZE);
    assert j == k;
  }

  lemma AllocIsLive(bs: seq<Block>, live: set<Block>, b: Block)
    requires Live(bs) == live + {b}
    ensures b in Live(bs)
  {
  }

  /** An allocation that was given back has left the other allocations alone. */
  lemma AfterDealloc(m: Cells, m': Cells, m'': Cells, live: set<Block>, b: Block, now: set<Block>)
    requires b !in live && now == live + {b} - {b}
    requires SamePayloads(m, m', live) && SamePayloads(m', m'', now)
    ensures now == live && SamePayloads(m, m'', live)
  {
    assert now == live;
    PayloadsTrans(m, m', m'', live);
  }

  lemma CountFrames(f0: set<int>, f1: set<int>, f2: set<int>, code: int, stack: int)
    requires if f0 == {} then code == 0 && f1 == f0 else code != 0 && code in f0 && f1 == f0 - {code}
    requires if f1 == {} then stack == 0 && f2 == f1 else stack != 0 && stack in f1 && f2 == f1 - {stack}
    ensures |f0| >= 3 <==> code != 0 && stack != 0 && f2 != {}
  {
    if code != 0 {
      assert f0 == f1 + {code};
      if stack != 0 {
        assert f1 == f2 + {stack};
      }
    }
  }

  lemma TabFacts(code: int, stack: int)
    requires code % PAGE_SIZE == 0 && stack % PAGE_SIZE == 0
    ensures var tab := UserTable(code, stack);
            && Present(tab[0]) && Present(tab[1]) && EmptyTable(tab[1 := 0][0 := 0])
            && tab[1 := 0] == Zeros()[0 := code + USER_FLAGS]
    ensures Present(Zeros()[0 := code + USER_FLAGS][0]) && EmptyTable(Zeros()[0 := code + USER_FLAGS][0 := 0])
  {
    FlaggedWord(code, USER_FLAGS);
    FlaggedWord(stack, USER_FLAGS);
    assert !Present(0);
  }
}
