/** The running system: processes and files together, over one heap. */
module SystemModel {
  import opened Words
  import opened PmmModel
  import opened PagingSpec
  import opened HeapSpec
  import opened GrowSpec
  import opened HeapModel
  import opened KernelSpec
  import opened SchedSpec
  import opened ProcSpec
  import opened SpacesModel
  import opened KernelModel
  import opened VfsSpec
  import opened VfsModel
  import opened Marshex
  import opened SystemSpec
  import Loader

  /** Program headers fit in every file that holds an image. */
  ghost predicate TextsFit(contents: map<Str, Str>) {
    forall name :: name in contents ==> Loader.TablesFit(Some(Chars(contents[name])))
  }

  /** What a script may ask for. */
  ghost predicate Allowed(op: Op, clean: bool) {
    match op
    case Spawn(_) => clean
    case SpawnTask(_) => clean
    case Write(_, Some(text)) => |text| < U32_MAX && Loader.TablesFit(Some(Chars(text)))
    case _ => true
  }

  predicate CleanAfter(op: Op, clean: bool) {
    match op
    case ExitNow => false
    case ReapAll => true
    case _ => clean
  }

  /** The shell's discipline: after an exit, reap before the next spawn. */
  ghost predicate Disciplined(script: seq<Op>, clean: bool) {
    script != [] ==> Allowed(script[0], clean) && Disciplined(script[1..], CleanAfter(script[0], clean))
  }

  /** The bytes by which an operation may make the heap grow. */
  function RoomFor(op: Op): (n: int)
    ensures n >= 0
  {
    match op
    case Spawn(_) => SPAWN_ROOM
    case SpawnTask(_) => STACK_ROOM
    case Write(_, Some(text)) => WriteBytes(text)
    case _ => 0
  }

  /** The writes with which the file system starts. */
  function FirstWrites(greeting: Str, program: Str): (script: seq<Op>)
    ensures |script| == 3
  {
    [Write(Some(WELCOME), Some(greeting)), Write(Some(HELLO_PING), Some(program)),
     Write(Some(HELLO_APP), Some(program))]
  }

  class System {
    const kernel: Kernel
    const files: FileTable

    /** A booted kernel and an empty file table. */
    constructor (kernel: Kernel, files: FileTable)
      requires kernel.Valid() && kernel.Covered() && files.heap == kernel.mem.heap && files.Valid()
      requires files.ready && files.contents == map[] && files.buffers == map[]
      ensures this.kernel == kernel && this.files == files && Valid()
    {
      this.kernel, this.files := kernel, files;
    }

    ghost function Now(): Snap
      reads this, kernel, files, kernel.mem, kernel.mem.heap, kernel.mem.heap.paging, kernel.mem.heap.paging.pmm
    {
      var heap := kernel.mem.heap;
      Snap(kernel.SchedNow(), kernel.procs, kernel.nextPid, kernel.pages, kernel.stacks, kernel.stackOf,
           kernel.mem.W(), heap.paging.currentDir, heap.blocks, heap.mem, heap.paging.pmm.used, heap.total,
           files.files, files.buffers, files.contents)
    }

    ghost predicate FilesFit()
      reads this, kernel`stacks, files, kernel.mem.heap
    {
      && files.heap == kernel.mem.heap && files.ready
      && FilesOk(files.files, files.buffers, files.contents, Live(kernel.mem.heap.blocks), kernel.mem.heap.mem)
      && BuffersApart(files.buffers, kernel.stacks) && TextsFit(files.contents)
    }

    ghost predicate Valid()
      reads this, kernel, files, kernel.mem, kernel.mem.heap, kernel.mem.heap.paging
      reads kernel.mem.heap.paging.pmm, kernel.mem.heap.paging.pmm.bitmap
    {
      kernel.Valid() && kernel.Covered() && FilesFit()
    }

    /** The invariant says everything that a trace records of a moment. */
    lemma Recorded()
      requires Valid()
      ensures SnapOk(Now())
    {
      hide FilesOk, StacksOk, Loaded, BuffersApart, TextsFit, UserCount, Kernel.Valid, Kernel.Covered;
      hide MemOk, Tiled, NoFreePair, Chained, TableShape, SchedSpec.Valid, Spaces.Valid, Live, ProcsOk;
      kernel.Parts();
      kernel.mem.MemNow({}, {});
      kernel.mem.HeapBlocks({}, {});
      kernel.FramesConserved();
      HeapChained();
    }

    lemma HeapChained()
      requires kernel.mem.Valid({}, {})
      ensures Chained(kernel.mem.heap.mem, kernel.mem.heap.blocks)
    {
      hide MemOk, Chained, Tiled, NoFreePair, UsedBytes, Pmm.Consistent;
    }

    /** Every process sees itself as it is. */
    lemma AllSee()
      requires Valid()
      ensures Kept(Now(), Now())
    {
      hide SnapOk, SeesSame;
      Recorded();
      forall s | s in kernel.mem.spaces
        ensures SeesSame(kernel.mem.W(), kernel.mem.W(), s)
      {
        SnapSees(Now(), s);
      }
    }

    // One method per operation

    method DoYield()
      requires Valid()
      modifies kernel, kernel.mem.heap.paging
      ensures kernel.Valid() && FilesFit() && Did(old(Now()), YieldNow, Done, Now())
    {
      hide Kernel.Valid, FilesOk, BuffersApart, TextsFit, Kept, Yields;
      AllSee();
      kernel.Sizes();
      kernel.Yield();
      SameKept(old(Now()), Now());
    }

    method DoExit()
      requires Valid()
      modifies kernel, kernel.mem.heap.paging
      ensures kernel.Valid() && FilesFit() && Did(old(Now()), ExitNow, Done, Now())
    {
      hide Kernel.Valid, FilesOk, BuffersApart, TextsFit, Kept, Exits;
      AllSee();
      kernel.Sizes();
      kernel.ExitCurrent();
      SameKept(old(Now()), Now());
    }

    method DoReap()
      requires Valid()
      modifies kernel, kernel.mem`spaces, kernel.mem.heap, kernel.mem.heap.paging
      modifies kernel.mem.heap.paging.pmm, kernel.mem.heap.paging.pmm.bitmap
      ensures kernel.Valid() && FilesFit() && Did(old(Now()), ReapAll, Done, Now())
    {
      hide Kernel.Valid, FilesOk, TextsFit, Reaped, StacksReturned, SeesSame, Live, SamePayloads, BuffersApart;
      kernel.Reap();
      ReapKeepsFiles(files.files, files.buffers, files.contents, old(Live(kernel.mem.heap.blocks)),
                     old(kernel.mem.heap.mem), old(kernel.stacks), kernel.stacks,
                     Live(kernel.mem.heap.blocks), kernel.mem.heap.mem);
    }

    /** Starts the program of a name as a process. */
    method DoSpawn(name: Option<Str>) returns (reply: int)
      requires Valid() && kernel.NoZombies() && kernel.mem.heap.end + SPAWN_ROOM <= HEAP_LIMIT
      modifies kernel, kernel.mem`spaces, kernel.mem.heap, kernel.mem.heap.paging
      modifies kernel.mem.heap.paging.pmm, kernel.mem.heap.paging.pmm.bitmap
      ensures kernel.Valid() && FilesFit() && Did(old(Now()), Spawn(name), Pid(reply), Now())
    {
      hide Kernel.Valid, FilesOk, TextsFit, BuffersApart, SeesSame, Live, SamePayloads, Heap.Valid, Kernel.Covered;
      hide Full, Spawnable, CanBuffer, Program, OnlyPages, StackGiven, HasProcess, Loader.TablesFit, ProgramOf,
           IsVacancy;
      hide Entered, AddedUser, Did, Kept, Kernel.AlmostValid, SpawnPages, NextPid, GrowN;
      ghost var a := Now();
      kernel.Sizes();
      HeapNow();
      var text := files.ProgramText(name);
      ProgramFits(files.contents, name, text);
      ghost var created, slot, sp;
      reply, created, slot, sp := kernel.SpawnUser(text);
      if created {
        VacancyFor(old(kernel.procs), kernel.procs, old(kernel.mem.spaces), kernel.mem.spaces,
                   old(kernel.SchedNow()), kernel.SchedNow(), slot, sp, NextPid(a.procs, a.next));
        FreshTask(old(kernel.SchedNow()), kernel.procs[slot].tid);
        SpawnKeepsFiles(files.files, files.buffers, files.contents, old(Live(kernel.mem.heap.blocks)),
                        old(kernel.mem.heap.mem), kernel.procs[slot].tid, old(kernel.states), old(kernel.stacks),
                        kernel.stacks, Live(kernel.mem.heap.blocks), kernel.mem.heap.mem);
        NewUser(a, Now(), text, slot, sp);
      } else {
        QuietKeepsFiles(files.files, files.buffers, files.contents, old(Live(kernel.mem.heap.blocks)),
                          old(kernel.mem.heap.mem), kernel.mem.heap.mem);
      }
      ghost var b := Now();
      KeptNow(a, b);
      DidSpawn(a, name, reply, b);
    }

    method DoSpawnTask(hasEntry: bool) returns (reply: int)
      requires Valid() && kernel.NoZombies() && kernel.mem.heap.end + STACK_ROOM <= HEAP_LIMIT
      modifies kernel, kernel.mem.heap, kernel.mem.heap.paging
      modifies kernel.mem.heap.paging.pmm, kernel.mem.heap.paging.pmm.bitmap
      ensures kernel.Valid() && FilesFit() && Did(old(Now()), SpawnTask(hasEntry), Pid(reply), Now())
    {
      hide Kernel.Valid, FilesOk, TextsFit, BuffersApart, SeesSame, Live, SamePayloads, Heap.Valid, Kernel.Covered;
      hide Full, CanHave, StackGiven, HasProcess, IsVacancy, EnteredKernel, AddedKernel, Did, Kept, Kernel.AlmostValid;
      hide KernelPages, NextPid, GrowN;
      ghost var a := Now();
      kernel.Sizes();
      ghost var created, slot;
      reply, created, slot := kernel.SpawnKernel(hasEntry);
      if created {
        VacancyOf(old(kernel.procs), kernel.procs, old(kernel.SchedNow()), kernel.SchedNow(), slot,
                  NextPid(a.procs, a.next));
        FreshTask(old(kernel.SchedNow()), kernel.procs[slot].tid);
        SpawnKeepsFiles(files.files, files.buffers, files.contents, old(Live(kernel.mem.heap.blocks)),
                        old(kernel.mem.heap.mem), kernel.procs[slot].tid, old(kernel.states), old(kernel.stacks),
                        kernel.stacks, Live(kernel.mem.heap.blocks), kernel.mem.heap.mem);
        NewKernel(a, Now(), slot);
      } else {
        QuietKeepsFiles(files.files, files.buffers, files.contents, old(Live(kernel.mem.heap.blocks)),
                          old(kernel.mem.heap.mem), kernel.mem.heap.mem);
      }
      ghost var b := Now();
      KeptNow(a, b);
      DidSpawnTask(a, hasEntry, reply, b);
    }

    lemma HeapNow()
      requires Valid()
      ensures files.heap == kernel.mem.heap && files.Valid() && kernel.mem.heap.Shared() && |kernel.mem.heap.blocks| > 0
    {
      hide FilesOk, Kernel.Covered, BuffersApart, TextsFit, StacksOk, TableShape, Loaded;
      kernel.mem.HeapValid({}, {});
      kernel.mem.HeapBlocks({}, {});
    }

    /** Writes a file while processes exist: they, their stacks and their address spaces stay as they are. */
    method DoWrite(name: Option<Str>, text: Option<Str>) returns (ok: bool)
      requires Valid()
      requires text.Some? ==> |text.value| < U32_MAX && Loader.TablesFit(Some(Chars(text.value)))
      requires text.Some? ==> kernel.mem.heap.end + WriteBytes(text.value) <= HEAP_LIMIT
      modifies files, kernel.mem.heap, kernel.mem.heap.paging
      modifies kernel.mem.heap.paging.pmm, kernel.mem.heap.paging.pmm.bitmap
      ensures kernel.Valid() && FilesFit() && Did(old(Now()), Write(name, text), Wrote(ok), Now())
    {
      hide Kernel.Valid, FilesFit, SeesSame, Live, Kernel.Covered, Affordable, OnlyFiles, Loader.TablesFit, Did, Kept;
      ghost var a := Now();
      ghost var n;
      ok, n := WriteQuietly(name, text);
      KeptNow(a, Now());
      DidWrite(a, name, text, ok, n, Now());
    }

    method WriteQuietly(name: Option<Str>, text: Option<Str>) returns (ok: bool, ghost n: nat)
      requires Valid()
      requires text.Some? ==> |text.value| < U32_MAX && Loader.TablesFit(Some(Chars(text.value)))
      requires text.Some? ==> kernel.mem.heap.end + WriteBytes(text.value) <= HEAP_LIMIT
      modifies files, kernel.mem.heap, kernel.mem.heap.paging
      modifies kernel.mem.heap.paging.pmm, kernel.mem.heap.paging.pmm.bitmap
      ensures kernel.Valid() && FilesFit() && kernel.KernelKept() && |old(kernel.mem.heap.blocks)| > 0
      ensures kernel.mem.heap.paging.currentDir == old(kernel.mem.heap.paging.currentDir)
      ensures forall s :: s in kernel.mem.spaces ==> SeesSame(old(kernel.mem.W()), kernel.mem.W(), s)
      ensures ok <==>
                && Asks(name, text)
                && Affordable(old(kernel.mem.heap.blocks), |old(kernel.mem.heap.paging.pmm.free)|,
                   AlignUp8(|text.value| + 1))
                && (name.value in old(files.contents) || |old(files.contents)| < MAX_FILES)
      ensures files.contents == if ok then old(files.contents)[name.value := text.value] else old(files.contents)
      ensures OnlyFiles(old(files.buffers), files.buffers, old(Live(kernel.mem.heap.blocks)),
              Live(kernel.mem.heap.blocks))
      ensures text.Some? ==> kernel.mem.heap.end <= old(kernel.mem.heap.end) + WriteBytes(text.value)
      ensures WriteGrows(old(kernel.mem.heap.blocks), |old(kernel.mem.heap.paging.pmm.free)|, name, text, n)
      ensures kernel.mem.heap.end == old(kernel.mem.heap.end) + n * PAGE_SIZE
    {
      hide Kernel.Valid, FilesOk, SeesSame, Live, SamePayloads, Heap.Valid, Kernel.Covered, MemOk, Growth, Spaces.Valid;
      hide Obtainable, Affordable, OnlyFiles, Loader.TablesFit, BuffersApart, TextsFit, SharedTables, Heap.Place,
           Heap.Room;
      hide StacksOk, ProcsOk, Loaded, SchedSpec.Valid, Grown, PlainSite, WriteGrows;
      ghost var was := kernel.mem.W();
      HeapNow();
      kernel.Parts();
      kernel.mem.MemNow({}, {});
      kernel.mem.HeapValid({}, {});
      RoomToWrite(text);
      ghost var bs, site := kernel.mem.heap.blocks, kernel.mem.heap.Place();
      ok, n := files.WriteFile(name, text, HEAP_LIMIT);
      WriteSearched(bs, site, old(kernel.mem.heap.end), name, text, n, |kernel.mem.heap.paging.pmm.free|);
      StillRuns(was, old(kernel.mem.heap.HeapTable()), old(Live(kernel.mem.heap.blocks)), old(files.buffers));
      StillApart(old(files.buffers), files.buffers, kernel.stacks, kernel.stackOf, kernel.states,
                 old(Live(kernel.mem.heap.blocks)), Live(kernel.mem.heap.blocks));
      TextsStillFit(old(files.contents), name, text, ok);
    }

    lemma RoomToWrite(text: Option<Str>)
      requires Valid() && (text.Some? ==> kernel.mem.heap.end + WriteBytes(text.value) <= HEAP_LIMIT)
      ensures |kernel.mem.heap.blocks| > 0
      ensures text.Some? ==>
                && kernel.mem.heap.Room(WriteBytes(text.value), HEAP_LIMIT)
                && (Obtainable(kernel.mem.heap.blocks, kernel.mem.heap.Place(), AlignUp8(|text.value| + 1)) <==>
                    Affordable(kernel.mem.heap.blocks, |kernel.mem.heap.paging.pmm.free|, AlignUp8(|text.value| + 1)))
      ensures PlainSite(kernel.mem.heap.Place(), kernel.mem.heap.end, |kernel.mem.heap.paging.pmm.free|)
    {
      hide Valid, Obtainable, Affordable, Heap.Room, Heap.Place, FileTable.Valid, Heap.Shared, PlainSite;
      HeapNow();
      PlainNow();
      if text.Some? {
        WritePlace(|text.value|);
      }
    }

    lemma PlainNow()
      requires Valid()
      ensures PlainSite(kernel.mem.heap.Place(), kernel.mem.heap.end, |kernel.mem.heap.paging.pmm.free|)
    {
      hide Kernel.Valid, FilesFit, Kernel.Covered, Spaces.Valid, Heap.Valid, Heap.Shared;
      kernel.Parts();
      kernel.mem.HeapValid({}, {});
      kernel.mem.heap.PlainPlace();
    }

    /** With the heap's table shared, what can be obtained is what can be afforded. */
    lemma WritePlace(len: nat)
      requires Valid() && kernel.mem.heap.end + AlignUp8(len + 1) + HEADER + GROW_PAGES * PAGE_SIZE <= HEAP_LIMIT
      ensures kernel.mem.heap.Room(AlignUp8(len + 1) + HEADER + GROW_PAGES * PAGE_SIZE, HEAP_LIMIT)
      ensures |kernel.mem.heap.blocks| > 0
      ensures Obtainable(kernel.mem.heap.blocks, kernel.mem.heap.Place(), AlignUp8(len + 1)) <==>
              Affordable(kernel.mem.heap.blocks, |kernel.mem.heap.paging.pmm.free|, AlignUp8(len + 1))
    {
      hide Kernel.Valid, FilesFit, Kernel.Covered, Tiled, NoFreePair, Spaces.Valid, Heap.Valid, Heap.Shared,
           Obtainable, Affordable;
      kernel.Parts();
      kernel.mem.HeapBlocks({}, {});
      kernel.mem.HeapValid({}, {});
      kernel.mem.heap.PlainPlace();
      PlainObtainable(kernel.mem.heap.blocks, HEAP_START, kernel.mem.heap.end, kernel.mem.heap.Place(),
                      AlignUp8(len + 1), HEAP_LIMIT / PAGE_SIZE);
    }

    /** The kernel's invariant after a file operation. */
    lemma StillRuns(was: World, t: int, live: set<Block>, buffers: map<int, Block>)
      requires MemOk(was, {}, {}) && kernel.mem.spaces.Keys <= Slots(MAX_PROCESSES)
      requires kernel.mem.heap.Valid() && kernel.mem.heap.Shared()
      requires var w := kernel.mem.W(); w == was.(mem := w.mem, free := w.free, frames := w.frames, end := w.end)
      requires IsTable(was.mem, was.kernel) && t == Base(was.mem[was.kernel][HEAP_ENTRY])
      requires var w := kernel.mem.W(); Growth(was.frames, w.frames, was.free, w.free, was.mem, w.mem, t)
      requires SchedSpec.Valid(kernel.SchedNow()) && StacksOk(kernel.stacks, kernel.stackOf, kernel.states, live)
      requires ProcsOk(kernel.procs, kernel.mem.spaces, kernel.states, kernel.mem.heap.paging.kernelDir)
      requires Loaded(kernel.procs, kernel.current, kernel.mem.heap.paging.kernelDir, kernel.mem.heap.paging.currentDir)
      requires OnlyFiles(buffers, files.buffers, live, Live(kernel.mem.heap.blocks))
               && BuffersApart(buffers, kernel.stacks)
      ensures kernel.Valid() && was.frames <= kernel.mem.heap.frames
      ensures forall s :: s in kernel.mem.spaces ==> SeesSame(was, kernel.mem.W(), s)
    {
      hide SeesSame, MemOk, Growth, StacksOk, TableShape, Loaded, SchedSpec.Valid, Spaces.Valid, OnlyFiles,
           BuffersApart, Heap.Valid, Live;
      kernel.mem.AfterGrowth(was, {}, {}, t);
      GrowthFrames(was.frames, kernel.mem.heap.frames, was.free, kernel.mem.heap.paging.pmm.free,
                   was.mem, kernel.mem.heap.paging.mem, t);
      kernel.StillSees(was);
      StacksStay(kernel.stacks, kernel.stackOf, kernel.states, live, Live(kernel.mem.heap.blocks), buffers,
                 files.buffers);
    }

    /** Reads a file into a buffer of the given size. */
    method DoRead(name: Option<Str>, size: nat) returns (n: int, bytes: seq<u8>)
      requires Valid()
      ensures Valid() && Did(old(Now()), Read(name, size), Text(n, bytes), Now())
    {
      hide Kernel.Valid, FilesOk, Kernel.Covered, TextsFit, BuffersApart, Heap.Valid, Kept;
      AllSee();
      HeapNow();
      var out := new u8[size];
      n := files.ReadFileInto(name, out);
      bytes := if n >= 0 then out[..n] else [];
    }

    /**
     The files of a new system: a greeting, and one program under two names. It is a run of three writes that stops
     at the first that fails, so it succeeds exactly when each is writable in the state it meets; it does when the
     free frames hold the texts.
     */
    method Populate(greeting: Str, program: Str) returns (ok: bool, ghost replies: seq<Reply>, ghost trace: seq<Snap>)
      requires Valid() && |greeting| < U32_MAX && |program| < U32_MAX
      requires Loader.TablesFit(Some(Chars(greeting))) && Loader.TablesFit(Some(Chars(program)))
      requires kernel.mem.heap.end + WriteBytes(greeting) + 2 * WriteBytes(program) <= HEAP_LIMIT
      modifies files, kernel.mem.heap, kernel.mem.heap.paging
      modifies kernel.mem.heap.paging.pmm, kernel.mem.heap.paging.pmm.bitmap
      ensures Valid()
      ensures IsTrace(trace, FirstWrites(greeting, program), replies)
      ensures trace[0] == old(Now()) && trace[|replies|] == Now()
      ensures ok <==> replies == [Wrote(true), Wrote(true), Wrote(true)]
      ensures !ok ==> |replies| > 0 && replies[|replies| - 1] == Wrote(false)
      ensures ok ==> files.contents
                     == old(files.contents)[WELCOME := greeting][HELLO_PING := program][HELLO_APP := program]
      ensures |old(files.contents)| + 3 <= MAX_FILES ==>
                WriteBytes(greeting) + 2 * WriteBytes(program) <= old(FreeBytes()) ==> ok
      ensures kernel.mem.heap.end <= old(kernel.mem.heap.end) + WriteBytes(greeting) + 2 * WriteBytes(program)
      ensures FreeBytes() + WriteBytes(greeting) + 2 * WriteBytes(program) >= old(FreeBytes())
    {
      hide Valid, Now, Loader.TablesFit, Did, SnapOk, IsTrace, Ascii, Chars;
      Recorded();
      replies, trace := [], [Now()];
      TraceStarts(Now(), FirstWrites(greeting, program));
      ok := WriteFirst(WELCOME, greeting);
      OneMoreMoment(greeting, program, replies, trace, Wrote(ok));
      assert replies + [Wrote(ok)] == [Wrote(ok)];
      replies, trace := [Wrote(ok)], trace + [Now()];
      if !ok {
        return;
      }
      ok := WriteFirst(HELLO_PING, program);
      OneMoreMoment(greeting, program, replies, trace, Wrote(ok));
      assert replies + [Wrote(ok)] == [Wrote(true), Wrote(ok)];
      replies, trace := [Wrote(true), Wrote(ok)], trace + [Now()];
      if !ok {
        return;
      }
      ok := WriteFirst(HELLO_APP, program);
      OneMoreMoment(greeting, program, replies, trace, Wrote(ok));
      assert replies + [Wrote(ok)] == [Wrote(true), Wrote(true), Wrote(ok)];
      replies, trace := [Wrote(true), Wrote(true), Wrote(ok)], trace + [Now()];
    }

    /** The first spawn by name in a new system. */
    method SpawnHello(ghost greeting: Str, ghost program: Str) returns (reply: int)
      requires Valid() && NewTable(kernel.procs, kernel.states, kernel.nextPid) && kernel.NoZombies()
      requires files.contents == map[WELCOME := greeting][HELLO_PING := program][HELLO_APP := program]
      requires kernel.mem.heap.end + SPAWN_ROOM <= HEAP_LIMIT && FreeBytes() >= 12 * PAGE_SIZE
      requires Loader.OutcomeOf(Some(Chars(program))) != Loader.Malformed
      modifies kernel, kernel.mem`spaces, kernel.mem.heap, kernel.mem.heap.paging
      modifies kernel.mem.heap.paging.pmm, kernel.mem.heap.paging.pmm.bitmap
      ensures Valid() && reply == 2 && |kernel.procs| == MAX_PROCESSES && |kernel.states| == MAX_TASKS
      ensures var p := kernel.procs[1];
              && p.active && p.pid == 2 && p.tid == 1 && !p.isKernel && p.code in kernel.pages
              && kernel.states[1] == Runnable
              && Loader.OutcomeOf(Some(Chars(program))) == Loader.Loaded(kernel.pages[p.code], p.entry)
    {
      hide Kernel.Valid, FilesFit, Did, SnapOk, Loader.OutcomeOf, Chars, CoveredBy, NoneZombie;
      ghost var a := Now();
      Recorded();
      RoomForOne(kernel.procs, kernel.states, kernel.nextPid);
      kernel.Sizes();
      reply := DoSpawn(Some(HELLO));
      StepCovered(a, Spawn(Some(HELLO)), Pid(reply), Now());
      Recorded();
      kernel.Sizes();
      ghost var slot, sp := HelloRuns(a, greeting, program, Pid(reply), Now());
      FirstEntry(a, Pid(reply), Now(), slot, sp);
    }

    lemma OneMoreMoment(greeting: Str, program: Str, replies: seq<Reply>, trace: seq<Snap>, reply: Reply)
      requires Valid() && |trace| == |replies| + 1 <= 3 && IsTrace(trace, FirstWrites(greeting, program), replies)
      requires Did(trace[|trace| - 1], FirstWrites(greeting, program)[|replies|], reply, Now())
      ensures IsTrace(trace + [Now()], FirstWrites(greeting, program), replies + [reply])
    {
      hide Valid, Did, SnapOk, IsTrace;
      Recorded();
      TraceExtends(trace, FirstWrites(greeting, program), replies, reply, Now());
    }

    /** Stores a file of a new system; it succeeds if the frames suffice, and uses no more than its bytes. */
    method WriteFirst(name: Str, text: Str) returns (ok: bool)
      requires Valid() && NameValid(name) && |text| < U32_MAX && Loader.TablesFit(Some(Chars(text)))
      requires kernel.mem.heap.end + WriteBytes(text) <= HEAP_LIMIT
      modifies files, kernel.mem.heap, kernel.mem.heap.paging
      modifies kernel.mem.heap.paging.pmm, kernel.mem.heap.paging.pmm.bitmap
      ensures Valid() && kernel.mem.heap.end <= old(kernel.mem.heap.end) + WriteBytes(text)
      ensures Did(old(Now()), Write(Some(name), Some(text)), Wrote(ok), Now())
      ensures files.contents == if ok then old(files.contents)[name := text] else old(files.contents)
      ensures FreeBytes() + WriteBytes(text) >= old(FreeBytes())
      ensures |old(files.contents)| < MAX_FILES && old(FreeBytes()) >= WriteBytes(text) ==> ok
    {
      hide Kernel.Valid, FilesFit, Loader.TablesFit, SeesSame, Affordable, OnlyFiles, Live, Did, Kept, WriteGrows;
      ghost var a := Now();
      CanWrite(text);
      FramesNow();
      ghost var n;
      ok, n := WriteQuietly(Some(name), Some(text));
      FramesNow();
      KeptNow(a, Now());
      DidWrite(a, Some(name), Some(text), ok, n, Now());
    }

    lemma FramesNow()
      requires Valid()
      ensures FreeBytes()
              == (|kernel.mem.heap.paging.pmm.managed| - |kernel.mem.base| - 4 * |kernel.mem.spaces|) * PAGE_SIZE
                 - (kernel.mem.heap.end - HEAP_START)
    {
      hide Kernel.Valid, FilesFit, Kernel.Covered, Spaces.Valid;
      kernel.Parts();
      kernel.mem.Counted({}, {});
      kernel.mem.HeapBlocks({}, {});
    }

    ghost function FreeBytes(): int
      reads kernel.mem.heap.paging.pmm
    {
      |kernel.mem.heap.paging.pmm.free| * PAGE_SIZE
    }

    /** A text for which the frames suffice can be stored. */
    lemma CanWrite(text: Str)
      requires Valid() && kernel.mem.heap.end + WriteBytes(text) <= HEAP_LIMIT
      ensures |kernel.mem.heap.blocks| > 0 && |text| < MAX_REQUEST
      ensures |kernel.mem.heap.paging.pmm.free| * PAGE_SIZE >= WriteBytes(text) ==>
                Affordable(kernel.mem.heap.blocks, |kernel.mem.heap.paging.pmm.free|, AlignUp8(|text| + 1))
    {
      hide Kernel.Valid, FilesFit, Kernel.Covered, Tiled, NoFreePair, Spaces.Valid, Affordable;
      kernel.Parts();
      kernel.mem.HeapBlocks({}, {});
      if |kernel.mem.heap.paging.pmm.free| * PAGE_SIZE >= WriteBytes(text) {
        EnoughFrames(kernel.mem.heap.blocks, HEAP_START, kernel.mem.heap.end, |kernel.mem.heap.paging.pmm.free|,
                     AlignUp8(|text| + 1));
      }
    }

    // Whole runs

    /** One operation, after which the invariant holds and the next moment is related to the last by it. */
    method Perform(op: Op, ghost clean: bool) returns (reply: Reply)
      requires Valid() && Allowed(op, clean) && (clean ==> kernel.NoZombies())
      requires kernel.mem.heap.end + RoomFor(op) <= HEAP_LIMIT
      modifies kernel, files, kernel.mem`spaces, kernel.mem.heap, kernel.mem.heap.paging
      modifies kernel.mem.heap.paging.pmm, kernel.mem.heap.paging.pmm.bitmap
      ensures Valid() && Did(old(Now()), op, reply, Now()) && (CleanAfter(op, clean) ==> kernel.NoZombies())
    {
      hide Kernel.Valid, FilesFit, Did, CoveredBy, NoneZombie, SchedSpec.Valid, Loader.TablesFit;
      kernel.Sizes();
      reply := Done;
      match op {
        case YieldNow =>
          DoYield();
        case ExitNow =>
          DoExit();
        case ReapAll =>
          DoReap();
        case Spawn(name) =>
          var n := DoSpawn(name);
          reply := Pid(n);
        case SpawnTask(hasEntry) =>
          var n := DoSpawnTask(hasEntry);
          reply := Pid(n);
        case Write(name, text) =>
          var ok := DoWrite(name, text);
          reply := Wrote(ok);
        case Read(name, size) =>
          var n, bytes := DoRead(name, size);
          reply := Text(n, bytes);
      }
      StepCovered(old(Now()), op, reply, Now());
    }

    /**
     Any run of spawns, exits, yields, reaps, writes and reads that reaps between an exit and the next spawn: every
     moment satisfies the invariant and leads to the next by the operation of the script. The run stops early only
     when the heap could outgrow its first 4 MiB.
     */
    method Run(script: seq<Op>) returns (replies: seq<Reply>, ghost trace: seq<Snap>)
      requires Valid() && kernel.NoZombies() && Disciplined(script, true)
      modifies kernel, files, kernel.mem`spaces, kernel.mem.heap, kernel.mem.heap.paging
      modifies kernel.mem.heap.paging.pmm, kernel.mem.heap.paging.pmm.bitmap
      ensures Valid() && IsTrace(trace, script, replies)
      ensures trace[0] == old(Now()) && trace[|replies|] == Now()
      ensures |replies| < |script| ==> kernel.mem.heap.end + RoomFor(script[|replies|]) > HEAP_LIMIT
    {
      hide Valid, IsTrace, SnapOk, Did, Allowed, NoneZombie, RoomFor;
      Recorded();
      replies, trace := [], [Now()];
      TraceStarts(Now(), script);
      ghost var clean := true;
      while |replies| < |script| && kernel.mem.heap.end + RoomFor(script[|replies|]) <= HEAP_LIMIT
        invariant |replies| <= |script| && |trace| == |replies| + 1
        invariant Valid() && IsTrace(trace, script, replies)
        invariant trace[0] == old(Now()) && trace[|replies|] == Now()
        invariant Disciplined(script[|replies|..], clean) && (clean ==> kernel.NoZombies())
        decreases |script| - |replies|
      {
        var op := script[|replies|];
        assert script[|replies|..][1..] == script[|replies| + 1..];
        var reply := Perform(op, clean);
        clean := CleanAfter(op, clean);
        Recorded();
        TraceExtends(trace, script, replies, reply, Now());
        replies, trace := replies + [reply], trace + [Now()];
      }
    }
  }

  /** In a new system the first free slots are those after the kernel's, and the first identifier is 2. */
  lemma FirstEntry(a: Snap, reply: Reply, b: Snap, slot: int, sp: Space)
    requires NewTable(a.procs, a.sched.states, a.next) && SnapOk(b)
    requires Did(a, Spawn(Some(HELLO)), reply, b) && CreatesUser(a, TextOf(a, Some(HELLO)))
    requires 0 <= slot < |a.procs| == |b.procs| && !a.procs[slot].active && b.procs[slot].active
    requires b.world.spaces == a.world.spaces[slot := sp]
    ensures reply == Pid(2) && slot == 1 && b.procs[1].pid == 2 && b.procs[1].tid == 1 && !b.procs[1].isKernel
    ensures |b.sched.states| == MAX_TASKS && b.sched.states[1] == Runnable && b.procs[1].code == sp.code
  {
    hide SnapOk, Did, StackGiven, Program, OnlyPages, CreatesUser, TextOf, NextPid, UsedPids;
    FirstPidIs(a.procs);
    var s, sp' := SpawnAdds(a, Some(HELLO), reply, b);
    assert !a.procs[1].active && Vacant(a.sched.states[1]);
    ReplyIs(a, Some(HELLO), reply, b);
    EntryIs(b, s);
  }

  lemma RoomForOne(procs: seq<Proc>, states: seq<State>, next: u32)
    requires NewTable(procs, states, next)
    ensures !Full(procs, states)
  {
    assert !procs[1].active && Vacant(states[1]);
  }

  lemma FirstPidIs(procs: seq<Proc>)
    requires |procs| == MAX_PROCESSES && procs[0].active && procs[0].pid == 1
    requires forall s :: 1 <= s < |procs| ==> !procs[s].active
    ensures NextPid(procs, 2) == 2
  {
    hide NextPid, UsedPids;
    UsedPidsOnly(procs, 2);
    NextPidLeast(procs, 2);
  }

  lemma ReplyIs(a: Snap, name: Option<Str>, reply: Reply, b: Snap)
    requires Did(a, Spawn(name), reply, b) && CreatesUser(a, TextOf(a, name))
    ensures reply == Pid(Signed32(NextPid(a.procs, a.next)))
  {
    hide Kept, CreatesUser, AddedUser, SpawnPages, NextPid, TextOf;
  }

  lemma EntryIs(s: Snap, i: int)
    requires SnapOk(s) && 0 <= i < |s.procs| && s.procs[i].active && !s.procs[i].isKernel
    ensures i in s.world.spaces && s.procs[i].code == s.world.spaces[i].code
  {
    hide MemOk, Tiled, NoFreePair, Chained, FilesOk, StacksOk, Conserved, Loaded, SchedSpec.Valid, BuffersApart;
    assert EntryOk(i, s.procs[i], s.world.spaces, s.sched.states, s.world.kernel);
  }

  lemma KeptNow(a: Snap, b: Snap)
    requires b.world.managed == a.world.managed && b.world.base == a.world.base && b.world.fixed == a.world.fixed
    requires b.world.kernel == a.world.kernel && a.world.frames <= b.world.frames
    requires forall s :: s in a.world.spaces && s in b.world.spaces ==> SeesSame(a.world, b.world, s)
    ensures Kept(a, b)
  {
    hide SeesSame;
  }

  lemma VacancyOf(procs: seq<Proc>, procs': seq<Proc>, sched: Sched, sched': Sched, s: int, pid: int)
    requires EnteredKernel(procs, procs', sched, sched', s, pid)
    ensures 0 <= s < |procs'| && Shape(sched) && IsVacancy(sched, procs'[s].tid)
  {
  }

  lemma VacancyFor(procs: seq<Proc>, procs': seq<Proc>, spaces: map<int, Space>, spaces': map<int, Space>,
                   sched: Sched, sched': Sched, s: int, sp: Space, pid: int)
    requires Entered(procs, procs', spaces, spaces', sched, sched', s, sp, pid)
    ensures 0 <= s < |procs'| && Shape(sched) && IsVacancy(sched, procs'[s].tid)
  {
  }

  lemma NewKernel(a: Snap, b: Snap, slot: int)
    requires EnteredKernel(a.procs, b.procs, a.sched, b.sched, slot, NextPid(a.procs, a.next)) && PidTaken(a, b)
    requires b.world.spaces == a.world.spaces && b.pages == a.pages
    requires StackGiven(b.procs[slot].tid, a.sched.states, a.stacks, b.stacks, Live(a.blocks), Live(b.blocks))
    ensures AddedKernel(a, b, slot)
  {
    hide StackGiven, Live;
  }

  lemma NewUser(a: Snap, b: Snap, text: Option<CText>, slot: int, sp: Space)
    requires Entered(a.procs, b.procs, a.world.spaces, b.world.spaces, a.sched, b.sched, slot, sp,
                     NextPid(a.procs, a.next))
    requires PidTaken(a, b)
    requires StackGiven(b.procs[slot].tid, a.sched.states, a.stacks, b.stacks, Live(a.blocks), Live(b.blocks))
    requires OnlyPages(a.pages, b.pages, sp)
    requires Program(text, CanBuffer(a.blocks, |a.world.free| - 4), b.pages[sp.code], b.procs[slot].entry)
    ensures AddedUser(a, b, text, slot, sp)
  {
    hide StackGiven, Live, Program, CanBuffer;
  }

  lemma DidSpawnTask(a: Snap, hasEntry: bool, reply: int, b: Snap)
    requires Kept(a, b) && SpawnedKernel(a, hasEntry, reply, b)
    ensures Did(a, SpawnTask(hasEntry), Pid(reply), b)
  {
    hide Kept, SpawnedKernel;
  }

  lemma DidSpawn(a: Snap, name: Option<Str>, reply: int, b: Snap)
    requires Kept(a, b) && SpawnedUser(a, TextOf(a, name), reply, b)
    ensures Did(a, Spawn(name), Pid(reply), b)
  {
    hide Kept, SpawnedUser;
  }

  lemma SameKept(a: Snap, b: Snap)
    requires Kept(a, a) && b.world == a.world
    ensures Kept(a, b)
  {
    hide SeesSame;
  }

  lemma ProgramFits(contents: map<Str, Str>, name: Option<Str>, text: Option<CText>)
    requires TextsFit(contents) && text == if name.Some? then ProgramOf(contents, name.value) else None
    ensures Loader.TablesFit(text)
  {
    hide Chars;
  }

  /** Without zombies the next task gets an unused slot. */
  lemma FreshTask(s: Sched, t: int)
    requires Shape(s) && IsVacancy(s, t) && NoneZombie(s.states)
    ensures s.states[t] == Unused
  {
  }

  /** Stacks are not buffers, so a file operation leaves them live. */
  lemma StacksStay(stacks: map<int, Block>, stackOf: seq<int>, states: seq<State>, live: set<Block>, live': set<Block>,
                   buffers: map<int, Block>, buffers': map<int, Block>)
    requires StacksOk(stacks, stackOf, states, live) && OnlyFiles(buffers, buffers', live, live')
             && BuffersApart(buffers, stacks)
    ensures StacksOk(stacks, stackOf, states, live')
  {
    forall t | 1 <= t < MAX_TASKS && states[t] != Unused
      ensures stacks[t] in live'
    {
      assert stacks[t] in live - FileBlocks(buffers);
    }
  }

  lemma StillApart(buffers: map<int, Block>, buffers': map<int, Block>, stacks: map<int, Block>,
                   stackOf: seq<int>, states: seq<State>, live: set<Block>, live': set<Block>)
    requires StacksOk(stacks, stackOf, states, live) && BuffersApart(buffers, stacks)
    requires OnlyFiles(buffers, buffers', live, live')
    ensures BuffersApart(buffers', stacks)
  {
    forall i, t | i in buffers' && t in stacks
      ensures buffers'[i] != stacks[t]
    {
      assert stacks[t] in live;
      if buffers'[i] in FileBlocks(buffers) {
        var j :| j in buffers && buffers[j] == buffers'[i];
      }
    }
  }

  lemma TextsStillFit(contents: map<Str, Str>, name: Option<Str>, text: Option<Str>, ok: bool)
    requires TextsFit(contents) && (text.Some? ==> Loader.TablesFit(Some(Chars(text.value))))
             && (ok ==> name.Some? && text.Some?)
    ensures TextsFit(if ok then contents[name.value := text.value] else contents)
  {
    hide Chars, Loader.TablesFit;
  }

  /** The heap's next pages are free and under tables that exist. */
  ghost predicate PlainSite(s: Site, end: int, free: int) {
    && s.free == free && 0 <= s.page && end == s.page * PAGE_SIZE
    && forall p :: s.page <= p < HEAP_LIMIT / PAGE_SIZE ==> p !in s.mapped && p / ENTRIES in s.open
  }

  lemma WriteSearched(bs: seq<Block>, s: Site, end: int, name: Option<Str>, text: Option<Str>, n: nat, free: int)
    requires |bs| > 0 && PlainSite(s, end, s.free)
    requires if Asks(name, text)
             then var want := AlignUp8(|text.value| + 1); Grown(bs, s, want, n, Obtainable(bs, s, want), free)
             else n == 0
    requires Asks(name, text) ==> end + n * PAGE_SIZE < HEAP_LIMIT
    ensures WriteGrows(bs, s.free, name, text, n)
  {
    hide Grown, Obtainable, Searched, Affordable;
    if Asks(name, text) {
      var want := AlignUp8(|text.value| + 1);
      PlainSearched(bs, s, want, n, Obtainable(bs, s, want), free, HEAP_LIMIT / PAGE_SIZE);
      SearchedFound(bs, s.free, want, n, Obtainable(bs, s, want));
    }
  }

  lemma SearchedFound(bs: seq<Block>, free: int, want: int, n: nat, found: bool)
    requires |bs| > 0 && Searched(bs, free, want, n, found)
    ensures Searched(bs, free, want, n, Affordable(bs, free, want))
  {
    hide Affordable;
  }

  lemma DidWrite(a: Snap, name: Option<Str>, text: Option<Str>, ok: bool, n: nat, b: Snap)
    requires Kept(a, b) && SameProcesses(a, b) && b.dir == a.dir && |a.blocks| > 0
    requires ok <==>
               && Asks(name, text)
               && Affordable(a.blocks, |a.world.free|, AlignUp8(|text.value| + 1))
               && (name.value in a.contents || |a.contents| < MAX_FILES)
    requires b.contents == if ok then a.contents[name.value := text.value] else a.contents
    requires OnlyFiles(a.buffers, b.buffers, Live(a.blocks), Live(b.blocks))
    requires WriteGrows(a.blocks, |a.world.free|, name, text, n) && GrewBy(a, b, n)
    ensures Did(a, Write(name, text), Wrote(ok), b)
  {
    hide Kept, Affordable, OnlyFiles, Live, WriteGrows;
  }
}
