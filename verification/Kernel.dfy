/**
 The scheduler and the process table over the memory layer: tasks, processes, and the
 lifecycle of spawning, exiting and reaping.
 */
module KernelModel {
  import opened Words
  import opened PmmModel
  import opened PagingSpec
  import opened HeapSpec
  import opened GrowSpec
  import opened HeapModel
  import opened KernelSpec
  import opened SpacesModel
  import opened SchedSpec
  import opened ProcSpec
  import opened Marshex
  import Loader

  const TASK_STACK_SIZE := 8192

  const WRITE_FILE := 8
  const SPAWN := 12
  const STACK_ROOM := TASK_STACK_SIZE + HEADER + GROW_PAGES * PAGE_SIZE
  const SPAWN_ROOM := STACK_ROOM + IMAGE_ROOM

  class Kernel {
    const mem: Spaces

    /** The task slots: their states and the bases of their stacks. */
    var states: seq<State>
    var stackOf: seq<int>
    var current: int

    var procs: seq<Proc>
    var nextPid: u32

    /** The bytes in the code and stack frames of user processes. */
    var pages: map<int, seq<u8>>

    /** The allocation behind each stack. */
    ghost var stacks: map<int, Block>

    /** The kernel task is running and owns the only process; the kernel directory is loaded. */
    constructor (mem: Spaces)
      requires mem.Valid({}, {}) && mem.spaces == map[] && mem.heap.paging.currentDir == mem.heap.paging.kernelDir
      ensures this.mem == mem && Valid() && Covered() && NoZombies()
      ensures NewTable(procs, states, nextPid)
    {
      hide Spaces.Valid, MemOk;
      this.mem := mem;
      states := seq(MAX_TASKS, i => if i == 0 then Running else Unused);
      stackOf := seq(MAX_TASKS, i => 0);
      current := 0;
      procs := seq(MAX_PROCESSES, i => NO_PROC)
               [0 := Proc(true, 1, 0, mem.heap.paging.kernelDir, 0, 0, 0, KERNEL_MASK, true)];
      nextPid := 2;
      pages := map[];
      stacks := map[];
      new;
    }

    ghost function SchedNow(): Sched
      reads `states, `current
    {
      Sched(states, current)
    }

    function CurrentDir(): u32
      reads mem.heap.paging
    {
      mem.heap.paging.currentDir
    }

    ghost predicate TasksOk()
      reads `states, `stackOf, `current, `stacks, mem.heap
    {
      SchedSpec.Valid(SchedNow()) && StacksOk(stacks, stackOf, states, Live(mem.heap.blocks))
    }

    ghost predicate TableOk()
      reads `states, `procs, mem, mem.heap.paging
    {
      ProcsOk(procs, mem.spaces, states, mem.heap.paging.kernelDir)
    }

    /** The invariant, up to two processes sharing a task. */
    ghost predicate AlmostValid()
      reads this, mem, mem.heap, mem.heap.paging, mem.heap.paging.pmm, mem.heap.paging.pmm.bitmap
    {
      && mem.Valid({}, {}) && TasksOk() && TableShape(procs, mem.spaces, states, mem.heap.paging.kernelDir)
      && Loaded(procs, current, mem.heap.paging.kernelDir, mem.heap.paging.currentDir)
    }

    /** The invariant between steps. */
    ghost predicate Valid()
      reads this, mem, mem.heap, mem.heap.paging, mem.heap.paging.pmm, mem.heap.paging.pmm.bitmap
    {
      AlmostValid() && TidsDistinct(procs)
    }

    // Scheduler

    /** The next task in round-robin order; -1 when there is none. */
    method PickNext() returns (next: int)
      requires SchedSpec.Shape(SchedNow())
      ensures next >= 0 && !NoneRunnable(SchedNow()) ==> IsNext(SchedNow(), next)
      ensures NoneRunnable(SchedNow()) ==>
                next == if current != 0 && states[0] != Unused && states[0] != Zombie then 0 else -1
      ensures next >= 0 || NoneRunnable(SchedNow())
    {
      for i := 1 to MAX_TASKS
        invariant forall j :: 1 <= j < i ==> states[Slot(current, j)] != Runnable
      {
        var idx := Slot(current, i);
        if states[idx] == Runnable {
          NextIs(SchedNow(), i);
          return idx;
        }
      }
      NoneIs(SchedNow());
      if current != 0 && states[0] != Unused && states[0] != Zombie {
        return 0;
      }
      return -1;
    }

    /** Loads the directory of the process that owns the task. */
    method ActivateTid(tid: int, ghost pending: set<int>, ghost extra: set<int>)
      requires mem.Valid(pending, extra) && TableOk()
      modifies mem.heap.paging
      ensures mem.Valid(pending, extra) && mem.W() == old(mem.W())
      ensures Loaded(procs, tid, mem.heap.paging.kernelDir, mem.heap.paging.currentDir)
    {
      hide Spaces.Valid;
      ProcDirs(pending, extra);
      for i := 0 to MAX_PROCESSES
        invariant mem.Valid(pending, extra) && mem.W() == old(mem.W())
        invariant forall s :: 0 <= s < i ==> !(procs[s].active && procs[s].tid == tid)
      {
        if procs[i].active && procs[i].tid == tid {
          mem.SwitchTo(procs[i].cr3, pending, extra);
          OnlyOwner(procs, i, mem.heap.paging.kernelDir);
          return;
        }
      }
      mem.SwitchTo(mem.heap.paging.kernelDir, pending, extra);
    }

    /** Every active process has a live directory. */
    lemma ProcDirs(pending: set<int>, extra: set<int>)
      requires mem.Valid(pending, extra) && TableOk()
      ensures mem.heap.paging.kernelDir in mem.heap.paging.dirs
      ensures forall s :: 0 <= s < |procs| && procs[s].active ==>
                procs[s].cr3 in mem.heap.paging.dirs && 0 < procs[s].cr3 < U32_LIMIT
    {
      mem.DirFacts(0, pending, extra);
      forall s | s in mem.spaces
        ensures mem.spaces[s].dir in mem.heap.paging.dirs
      {
        assert mem.spaces[s].dir in AllDirs(mem.spaces);
      }
      DirsUsed(mem.W(), pending, extra);
    }

    /** Gives the processor to the next runnable task, if there is one. */
    method Yield()
      requires Valid()
      modifies `states, `current, mem.heap.paging
      ensures Valid() && Yields(old(SchedNow()), SchedNow()) && mem.W() == old(mem.W())
    {
      hide Spaces.Valid, MemOk, StacksOk, IsNext, Loaded, EntryOk, Live;
      var next := PickNext();
      if NoneRunnable(SchedNow()) {
        NobodyElse(SchedNow());
      }
      if next < 0 {
        return;
      }
      NextSame(SchedNow(), next, Runnable);
      var prev := current;
      if states[prev] == Running {
        states := states[prev := Runnable];
      }
      current := next;
      states := states[current := Running];
      StepKeeps(old(SchedNow()), Event.Yield, SchedNow());
      LiveSame(procs, mem.spaces, old(states), states, mem.heap.paging.kernelDir, stacks, stackOf,
               Live(mem.heap.blocks));
      ActivateTid(current, {}, {});
    }

    /** Ends the current task; task 0 stays. */
    method ExitCurrent()
      requires Valid()
      modifies `states, `current, mem.heap.paging
      ensures Valid() && Exits(old(SchedNow()), SchedNow()) && mem.W() == old(mem.W())
    {
      hide Spaces.Valid, MemOk, StacksOk, IsNext, Loaded, EntryOk, Live;
      if current == 0 {
        return;
      }
      ExitHasSuccessor(SchedNow());
      states := states[current := Zombie];
      var next := PickNext();
      if next < 0 {
        // the processor would halt here, with nothing left to run
        assert false;
      }
      NextSame(SchedNow(), next, Zombie);
      current := next;
      states := states[current := Running];
      StepKeeps(old(SchedNow()), Event.Exit, SchedNow());
      LiveSame(procs, mem.spaces, old(states), states, mem.heap.paging.kernelDir, stacks, stackOf,
               Live(mem.heap.blocks));
      ActivateTid(current, {}, {});
    }

    /** The first slot after 0 that is unused or holds a zombie; 0 when there is none. */
    method FindVacancy() returns (t: int)
      requires SchedSpec.Shape(SchedNow())
      ensures t != 0 ==> IsVacancy(SchedNow(), t)
      ensures t == 0 ==> forall j :: 1 <= j < MAX_TASKS ==> !Vacant(states[j])
      ensures t != 0 ==> 1 <= t < 16 && (states[t] == Unused || states[t] == Zombie)
      ensures forall j :: 1 <= j < (if t == 0 then 16 else t) ==> states[j] == Runnable || states[j] == Running
    {
      for idx := 1 to MAX_TASKS
        invariant forall j :: 1 <= j < idx ==> !Vacant(states[j])
      {
        if Vacant(states[idx]) {
          return idx;
        }
      }
      return 0;
    }

    /**
     Creates a task in the first vacant slot, with a stack of its own. A zombie in that slot
     loses its stack to the heap. -1: no entry point, no vacancy, or no memory.
     */
    method CreateTask(hasEntry: bool, ghost pending: set<int>, ghost extra: set<int>) returns (tid: int)
      requires mem.Valid(pending, extra) && TasksOk() && mem.heap.end + STACK_ROOM <= HEAP_LIMIT
      modifies `states, `stackOf, `stacks, mem.heap, mem.heap.paging, mem.heap.paging.pmm, mem.heap.paging.pmm.bitmap
      ensures mem.Valid(pending, extra) && TasksOk() && mem.SpacesKept()
      ensures mem.heap.paging.home == old(mem.heap.paging.home)
      ensures mem.heap.paging.pmm.managed == old(mem.heap.paging.pmm.managed)
      ensures |old(mem.heap.blocks)| > 0
      ensures tid >= 0 <==>
                && hasEntry && !NoVacancy(old(states))
                && CanHave(old(mem.heap.blocks), |old(mem.heap.paging.pmm.free)|, 8192)
      ensures tid >= 0 ==> IsVacancy(old(SchedNow()), tid)
      ensures tid >= 0 ==> SchedNow() == old(SchedNow()).(states := old(states)[tid := Runnable])
      ensures tid < 0 ==> SchedNow() == old(SchedNow()) && stacks == old(stacks) && stackOf == old(stackOf)
      ensures tid >= 0 ==>
              StackGiven(tid, old(states), old(stacks), stacks, old(Live(mem.heap.blocks)), Live(mem.heap.blocks))
      ensures tid < 0 ==> Live(mem.heap.blocks) == old(Live(mem.heap.blocks))
      ensures old(mem.heap.end) <= mem.heap.end <= old(mem.heap.end) + STACK_ROOM
              && old(mem.heap.frames) <= mem.heap.frames
      ensures SamePayloads(old(mem.heap.mem), mem.heap.mem, old(Live(mem.heap.blocks)) * Live(mem.heap.blocks))
      ensures var n := TaskPages(hasEntry, old(states), old(mem.heap.blocks), |old(mem.heap.paging.pmm.free)|);
              && mem.heap.end == old(mem.heap.end) + n * PAGE_SIZE
              && (tid < 0 ==> mem.heap.blocks == GrowN(old(mem.heap.blocks), n))
    {
      hide Spaces.Valid, SamePayloads, Live, Spaces.WindowIs, Spaces.WindowEmpty, StacksOk, Heap.Valid;
      hide Searched, CanHave, PagesFor, GrowN, Take, Fits, Tiled, NoFreePair;
      mem.HeapBlocks(pending, extra);
      AgreesPayloads(mem.heap.mem, Live(mem.heap.blocks));
      SameSubset(mem.heap.mem, mem.heap.mem, Live(mem.heap.blocks), Live(mem.heap.blocks) * Live(mem.heap.blocks));
      GrowNone(mem.heap.blocks);
      if !hasEntry {
        return -1;
      }
      var idx := FindVacancy();
      if idx == 0 {
        return -1;
      }
      StackRoom();
      ghost var b, k, n;
      var stack;
      stack, b, k, n := mem.Alloc(TASK_STACK_SIZE, pending, extra);
      SmallSearch(old(mem.heap.blocks), HEAP_START, old(mem.heap.end), |old(mem.heap.paging.pmm.free)|,
                  TASK_STACK_SIZE, n, stack != 0);
      MoreLive(stacks, stackOf, states, old(Live(mem.heap.blocks)), Live(mem.heap.blocks));
      SameSubset(old(mem.heap.mem), mem.heap.mem, old(Live(mem.heap.blocks)),
                 old(Live(mem.heap.blocks)) * Live(mem.heap.blocks));
      if stack == 0 {
        return -1;
      }
      label taken:
      Occupy(idx, stack, b, pending, extra);
      ghost var live0, live2 := old(Live(mem.heap.blocks)), Live(mem.heap.blocks);
      SameSubset(old(mem.heap.mem), old@taken(mem.heap.mem), live0, live0 * live2);
      SameSubset(old@taken(mem.heap.mem), mem.heap.mem, live2, live0 * live2);
      PayloadsTrans(old(mem.heap.mem), old@taken(mem.heap.mem), mem.heap.mem, live0 * live2);
      tid := idx;
    }

    /** Puts a new task with the stack `b` into a vacant slot; the stack of a zombie there goes back. */
    method Occupy(idx: int, stack: int, ghost b: Block, ghost pending: set<int>, ghost extra: set<int>)
      requires mem.Valid(pending, extra) && TasksOk() && IsVacancy(SchedNow(), idx)
      requires b in Live(mem.heap.blocks) && stack == Payload(b) && b.size >= TASK_STACK_SIZE
      requires forall u :: u in stacks ==> stacks[u] != b
      modifies `states, `stackOf, `stacks, mem.heap
      ensures mem.Valid(pending, extra) && TasksOk() && mem.W() == old(mem.W())
      ensures SchedNow() == old(SchedNow()).(states := old(states)[idx := Runnable])
      ensures stacks == old(stacks)[idx := b] && (old(states)[idx] == Zombie ==> idx in old(stacks))
      ensures Live(mem.heap.blocks)
              == old(Live(mem.heap.blocks)) - (if old(states)[idx] == Zombie then {old(stacks)[idx]} else {})
      ensures SamePayloads(old(mem.heap.mem), mem.heap.mem, Live(mem.heap.blocks))
    {
      hide Spaces.Valid, SamePayloads, Live, StacksOk, Heap.Valid;
      DropStack(idx, pending, extra);
      NewStack(stacks, stackOf, states, old(Live(mem.heap.blocks)), Live(mem.heap.blocks), idx, b);
      stackOf := stackOf[idx := stack];
      stacks := stacks[idx := b];
      states := states[idx := Runnable];
      StepKeeps(old(SchedNow()), Event.Create(idx), SchedNow());
    }

    /** Gives back the stack of a zombie whose slot is about to be used again. */
    method DropStack(idx: int, ghost pending: set<int>, ghost extra: set<int>)
      requires mem.Valid(pending, extra) && 1 <= idx < MAX_TASKS
      requires StacksOk(stacks, stackOf, states, Live(mem.heap.blocks))
      modifies mem.heap
      ensures mem.Valid(pending, extra) && mem.W() == old(mem.W())
      ensures states[idx] == Zombie ==>
              idx in stacks && Live(mem.heap.blocks) == old(Live(mem.heap.blocks)) - {stacks[idx]}
      ensures states[idx] != Zombie ==> Live(mem.heap.blocks) == old(Live(mem.heap.blocks))
      ensures SamePayloads(old(mem.heap.mem), mem.heap.mem, Live(mem.heap.blocks))
    {
      hide Spaces.Valid, SamePayloads, Live;
      LivePayload(pending, extra);
      AgreesPayloads(mem.heap.mem, Live(mem.heap.blocks));
      if states[idx] == Zombie && stackOf[idx] != 0 {
        ghost var k := mem.Dealloc(stackOf[idx], stacks[idx], pending, extra);
      }
    }

    lemma StackRoom()
      requires mem.heap.end + STACK_ROOM <= HEAP_LIMIT
      ensures mem.heap.end + AlignUp8(TASK_STACK_SIZE) + HEADER + GROW_PAGES * PAGE_SIZE <= HEAP_LIMIT
      ensures AlignUp8(TASK_STACK_SIZE) == TASK_STACK_SIZE && Small(TASK_STACK_SIZE)
    {
    }

    /** Clears the slot of a zombie and gives its stack back. */
    method ReapTask(tid: int) returns (ok: bool)
      requires mem.Valid({}, {}) && TasksOk()
      modifies `states, `stackOf, `stacks, mem.heap
      ensures mem.Valid({}, {}) && TasksOk() && mem.W() == old(mem.W())
      ensures ok <==> 1 <= tid < MAX_TASKS && old(states)[tid] == Zombie
      ensures ok ==> SchedNow() == old(SchedNow()).(states := old(states)[tid := Unused])
      ensures ok ==>
              && tid in old(stacks) && Live(mem.heap.blocks) == old(Live(mem.heap.blocks)) - {old(stacks)[tid]}
              && stacks == old(stacks) - {tid}
      ensures !ok ==>
              && SchedNow() == old(SchedNow()) && Live(mem.heap.blocks) == old(Live(mem.heap.blocks))
              && stacks == old(stacks) && stackOf == old(stackOf)
      ensures SamePayloads(old(mem.heap.mem), mem.heap.mem, Live(mem.heap.blocks))
    {
      hide Spaces.Valid, SamePayloads, Live, StacksOk;
      AgreesPayloads(mem.heap.mem, Live(mem.heap.blocks));
      if tid <= 0 || tid >= MAX_TASKS {
        return false;
      }
      if states[tid] != Zombie {
        return false;
      }
      DropStack(tid, {}, {});
      NoStack(stacks, stackOf, states, old(Live(mem.heap.blocks)), Live(mem.heap.blocks), tid);
      stackOf := stackOf[tid := 0];
      stacks := stacks - {tid};
      states := states[tid := Unused];
      StepKeeps(old(SchedNow()), Event.Reap({tid}), SchedNow());
      ok := true;
    }

    lemma LivePayload(pending: set<int>, extra: set<int>)
      requires mem.Valid(pending, extra) && StacksOk(stacks, stackOf, states, Live(mem.heap.blocks))
      ensures forall t :: t in stacks ==> stackOf[t] != 0
    {
      LivePointers(mem.heap.blocks, HEAP_START, mem.heap.end);
    }

    // Process table

    method FindFreeSlot() returns (slot: int)
      requires |procs| == MAX_PROCESSES
      ensures slot < 0 ==> forall s :: 0 <= s < MAX_PROCESSES ==> procs[s].active
      ensures slot >= 0 ==> slot < MAX_PROCESSES && !procs[slot].active && forall s :: 0 <= s < slot ==> procs[s].active
    {
      for i := 0 to MAX_PROCESSES
        invariant forall s :: 0 <= s < i ==> procs[s].active
      {
        if !procs[i].active {
          return i;
        }
      }
      return -1;
    }

    method PidInUse(pid: int) returns (used: bool)
      requires |procs| == MAX_PROCESSES
      ensures used <==> exists s :: 0 <= s < |procs| && procs[s].active && procs[s].pid == pid
    {
      for i := 0 to MAX_PROCESSES
        invariant forall s :: 0 <= s < i ==> !(procs[s].active && procs[s].pid == pid)
      {
        if procs[i].active && procs[i].pid == pid {
          return true;
        }
      }
      return false;
    }

    /**
     The first identifier from the counter on that no active process has, going round from 2. Among 33
     candidates in a row one is free, across the wrap of the 32-bit counter too, so the search never
     falls through.
     */
    method AllocPid() returns (pid: u32, ghost j: nat)
      requires |procs| == MAX_PROCESSES
      modifies `nextPid
      ensures 2 <= pid && forall s :: 0 <= s < |procs| && procs[s].active ==> procs[s].pid != pid
      ensures j < 33 && pid == Candidate(FirstPid(old(nextPid)), j)
      ensures Tried(FirstPid(old(nextPid)), j) <= UsedPids(procs)
      ensures nextPid == Candidate(FirstPid(old(nextPid)), j + 1)
      ensures pid == NextPid(procs, old(nextPid)) && nextPid == PidAfter(pid)
      ensures nextPid == if pid == 0xFFFF_FFFF then 2 else pid + 1
    {
      hide Tried, UsedPids, FirstFree;
      TriedSteps(FirstPid(nextPid));
      ghost var start := FirstPid(nextPid);
      ghost var used := UsedPids(procs);
      UsedPidsCount(procs);
      var tries := 0;
      while tries <= MAX_PROCESSES
        invariant 0 <= tries <= MAX_PROCESSES + 1
        invariant FirstPid(nextPid) == Candidate(start, tries)
        invariant Tried(start, tries) <= used
      {
        pid := nextPid;
        if pid < 2 {
          pid := 2;
        }
        nextPid := Wrap32(pid + 1);
        if nextPid < 2 {
          nextPid := 2;
        }
        NextCandidatePid(start, tries);
        var taken := PidInUse(pid);
        if !taken {
          j := tries;
          UsedPidsOnly(procs, pid);
          FirstFreeIs(start, used, 0, j);
          return;
        }
        ghost var s :| 0 <= s < |procs| && procs[s].active && procs[s].pid == pid;
        UsedPidsHas(procs, s);
        tries := tries + 1;
      }
      TriedFacts(start, 33, 33);
      SmallerSet(Tried(start, 33), used);
      // the fixed identifier 2 is never needed
      assert false;
    }

    /**
     Creates a user process that runs the program with this text. It is created exactly when a table slot and a
     task slot are free and the memory suffices (see `Spawnable`). Otherwise everything taken is given back, but for
     the pages by which the heap grew, and the loaded directory is the same. The reply is the identifier as a signed
     integer: from 2^31 on a process is created and a failure reported.
     A zombie's task slot may be taken: then two processes share a task if the zombie was not reaped,
     and that is the only way in which the invariant can be lost.
     */
    method SpawnUser(text: Option<CText>) returns (reply: int, ghost created: bool, ghost slot: int, ghost sp: Space)
      requires Valid() && mem.heap.end + SPAWN_ROOM <= HEAP_LIMIT && Loader.TablesFit(text)
      modifies `states, `stackOf, `stacks, `procs, `nextPid, `pages, mem`spaces
      modifies mem.heap, mem.heap.paging, mem.heap.paging.pmm, mem.heap.paging.pmm.bitmap
      ensures AlmostValid() && current == old(current) && CurrentDir() == old(CurrentDir()) && KernelKept()
      ensures |old(mem.heap.blocks)| > 0
      ensures created <==>
                && !Full(old(procs), old(states))
                && Spawnable(old(mem.heap.blocks), |old(mem.heap.paging.pmm.free)|, text)
      ensures reply == SpawnReply(created, old(procs), old(nextPid))
      ensures reply >= 0 <==> created && NextPid(old(procs), old(nextPid)) < 0x8000_0000
      ensures if created then UserAdded(slot, sp, text) else NothingAdded()
      ensures var n := SpawnPages(old(procs), old(states), old(mem.heap.blocks), |old(mem.heap.paging.pmm.free)|, text);
              && mem.heap.end == old(mem.heap.end) + n * PAGE_SIZE
              && (!created ==> mem.heap.blocks == GrowN(old(mem.heap.blocks), n))
      ensures Valid() <==> !created || !HasProcess(old(procs), procs[slot].tid)
      ensures created && old(Covered()) ==> (Valid() <==> old(states)[procs[slot].tid] == Unused)
      ensures SamePayloads(old(mem.heap.mem), mem.heap.mem, old(Live(mem.heap.blocks)) * Live(mem.heap.blocks))
      ensures forall s :: s in old(mem.spaces) ==> SeesSame(old(mem.W()), mem.W(), s)
    {
      hide Spaces.Valid, SamePayloads, Live, StacksOk, Loader.OutcomeOf, Loader.TablesFit, TasksOk, NoVacancy;
      hide TableShape, Loaded, SchedSpec.Valid, HasProcess, Covered, SeesSame, MemOk, Spawnable;
      hide Program, CanBuffer, StackGiven, OnlyPages, PreparePages, GrowN, NextPid;
      reply, created, sp := -1, false, Space(0, 0, 0, 0);
      mem.HeapBlocks({}, {});
      mem.MemNow({}, {});
      Sizes();
      OwnedTasks();
      GrowNone(mem.heap.blocks);
      AgreesPayloads(mem.heap.mem, Live(mem.heap.blocks) * Live(mem.heap.blocks));
      var s := FindFreeSlot();
      slot := s;
      if s >= 0 {
        reply, created, sp := Enrol(text, s);
      }
      StillSees(old(mem.W()));
    }

    /** One new user process: its table entry, its address space, its task with a stack, and its pages. */
    twostate predicate UserAdded(slot: int, sp: Space, text: Option<CText>)
      reads this, mem, mem.heap, mem.heap.paging, mem.heap.paging.pmm
    {
      && Entered(old(procs), procs, old(mem.spaces), mem.spaces, old(SchedNow()), SchedNow(), slot, sp,
                 NextPid(old(procs), old(nextPid)))
      && nextPid == PidAfter(NextPid(old(procs), old(nextPid)))
      && StackGiven(procs[slot].tid, old(states), old(stacks), stacks, old(Live(mem.heap.blocks)),
         Live(mem.heap.blocks))
      && OnlyPages(old(pages), pages, sp)
      && Program(text, CanBuffer(old(mem.heap.blocks), |old(mem.heap.paging.pmm.free)| - 4),
                 pages[sp.code], procs[slot].entry)
    }

    /** No process came or went, and no allocation. */
    twostate predicate NothingAdded()
      reads this, mem, mem.heap
    {
      && procs == old(procs) && states == old(states) && stacks == old(stacks) && pages == old(pages)
      && nextPid == old(nextPid) && mem.spaces == old(mem.spaces) && Live(mem.heap.blocks) == old(Live(mem.heap.blocks))
    }

    /** Creates the process in a free slot of the table. */
    method Enrol(text: Option<CText>, s: int) returns (reply: int, ghost created: bool, ghost sp: Space)
      requires Valid() && mem.heap.end + SPAWN_ROOM <= HEAP_LIMIT && Loader.TablesFit(text)
      requires 0 <= s < MAX_PROCESSES && |procs| == MAX_PROCESSES && !procs[s].active
      requires forall j :: 0 <= j < s ==> procs[j].active
      modifies `states, `stackOf, `stacks, `procs, `nextPid, `pages, mem`spaces
      modifies mem.heap, mem.heap.paging, mem.heap.paging.pmm, mem.heap.paging.pmm.bitmap
      ensures AlmostValid() && current == old(current) && CurrentDir() == old(CurrentDir()) && KernelKept()
      ensures |old(mem.heap.blocks)| > 0
      ensures created <==>
                !NoVacancy(old(states)) && Spawnable(old(mem.heap.blocks), |old(mem.heap.paging.pmm.free)|, text)
      ensures reply == SpawnReply(created, old(procs), old(nextPid))
      ensures if created then UserAdded(s, sp, text) else NothingAdded()
      ensures var n := PreparePages(old(states), old(mem.heap.blocks), |old(mem.heap.paging.pmm.free)|, text);
              && mem.heap.end == old(mem.heap.end) + n * PAGE_SIZE
              && (!created ==> mem.heap.blocks == GrowN(old(mem.heap.blocks), n))
      ensures TidsDistinct(procs) <==> !created || !HasProcess(old(procs), procs[s].tid)
      ensures SamePayloads(old(mem.heap.mem), mem.heap.mem, old(Live(mem.heap.blocks)) * Live(mem.heap.blocks))
    {
      hide Spaces.Valid, SamePayloads, Live, StacksOk, Loader.OutcomeOf, Loader.TablesFit, Spaces.Built, FramesOf;
      hide TableShape, Loaded, SchedSpec.Valid, HasProcess, MemOk, Spawnable, Program, CanBuffer, StackGiven;
      hide TasksOk, OnlyPages, NoVacancy, PreparePages, GrowN, NextPid;
      reply, created := -1, false;
      Sizes();
      var tid, cr3, code, stack, entry, page;
      tid, cr3, code, stack, entry, page, sp := Prepare(text);
      if tid >= 0 {
        var p := Register(s, tid, cr3, code, stack, entry, page, sp, old(states));
        reply, created := Signed32(p), true;
      }
    }

    /** The address space and the task of a new process; all or nothing. */
    method Prepare(text: Option<CText>)
      returns (tid: int, cr3: u32, code: u32, stack: u32, entry: u32, page: seq<u8>, ghost sp: Space)
      requires mem.Valid({}, {}) && TasksOk() && mem.heap.end + SPAWN_ROOM <= HEAP_LIMIT && Loader.TablesFit(text)
      modifies `states, `stackOf, `stacks
      modifies mem.heap, mem.heap.paging, mem.heap.paging.pmm, mem.heap.paging.pmm.bitmap
      ensures TasksOk() && CurrentDir() == old(CurrentDir()) && KernelKept() && |old(mem.heap.blocks)| > 0
      ensures tid >= 0 <==>
                !NoVacancy(old(states)) && Spawnable(old(mem.heap.blocks), |old(mem.heap.paging.pmm.free)|, text)
      ensures tid < 0 ==> mem.Valid({}, {}) && SchedNow() == old(SchedNow()) && stacks == old(stacks)
      ensures tid < 0 ==> Live(mem.heap.blocks) == old(Live(mem.heap.blocks))
      ensures tid >= 0 ==> mem.Valid({cr3}, FramesOf(sp)) && mem.Built(sp) && sp == Space(cr3, sp.table, code, stack)
      ensures tid >= 0 ==> IsVacancy(old(SchedNow()), tid)
      ensures tid >= 0 ==> SchedNow() == old(SchedNow()).(states := old(states)[tid := Runnable])
      ensures tid >= 0 ==>
                StackGiven(tid, old(states), old(stacks), stacks, old(Live(mem.heap.blocks)), Live(mem.heap.blocks))
      ensures tid >= 0 ==>
                Program(text, CanBuffer(old(mem.heap.blocks), |old(mem.heap.paging.pmm.free)| - 4), page, entry)
      ensures SamePayloads(old(mem.heap.mem), mem.heap.mem, old(Live(mem.heap.blocks)) * Live(mem.heap.blocks))
      ensures var n := PreparePages(old(states), old(mem.heap.blocks), |old(mem.heap.paging.pmm.free)|, text);
              && mem.heap.end == old(mem.heap.end) + n * PAGE_SIZE
              && (tid < 0 ==> mem.heap.blocks == GrowN(old(mem.heap.blocks), n))
    {
      hide Spaces.Valid, SamePayloads, Live, Window, NotKernels, StacksOk, UserTable, Loader.OutcomeOf,
           Loader.TablesFit;
      hide CanBuffer, Program, CanHave, Buffered, ImagePages, Tiled, NoFreePair, SchedSpec.Valid, StackGiven, Spawnable;
      hide GrowN, SpacePages, TaskPages, NoVacancy;
      tid := -1;
      mem.HeapBlocks({}, {});
      mem.Counted({}, {});
      SpaceBlocks(mem.heap.blocks, |mem.heap.paging.pmm.free|);
      ghost var n := SpacePages(mem.heap.blocks, |mem.heap.paging.pmm.free|);
      var ok;
      ok, cr3, code, stack, entry, page, sp := mem.CreateSpace(text);
      SameSubset(old(mem.heap.mem), mem.heap.mem, Live(mem.heap.blocks),
                 old(Live(mem.heap.blocks)) * Live(mem.heap.blocks));
      if !ok {
        Unspawned(old(mem.heap.blocks), |old(mem.heap.paging.pmm.free)|, text);
        return;
      }
      mem.Counted({cr3}, FramesOf(sp));
      FourInSpace(sp);
      StackFollows(old(mem.heap.blocks), old(mem.heap.end), |old(mem.heap.paging.pmm.free)|, mem.heap.blocks,
                   |mem.heap.paging.pmm.free|, text);
      ghost var live, mem1 := Live(mem.heap.blocks), mem.heap.mem;
      ghost var m := TaskPages(true, states, mem.heap.blocks, |mem.heap.paging.pmm.free|);
      GrowNAdd(old(mem.heap.blocks), n, m);
      tid := CreateTask(true, {cr3}, FramesOf(sp));
      SameSubset(old(mem.heap.mem), mem1, live, live * Live(mem.heap.blocks));
      PayloadsTrans(old(mem.heap.mem), mem1, mem.heap.mem, live * Live(mem.heap.blocks));
      if tid < 0 {
        mem.Dismantle(cr3, code, stack, sp);
      }
    }

    /** What no step of a process's life changes. */
    twostate predicate KernelKept()
      reads mem, mem.heap, mem.heap.paging, mem.heap.paging.pmm
    {
      && mem.heap.paging.pmm.managed == old(mem.heap.paging.pmm.managed)
      && mem.heap.paging.kernelDir == old(mem.heap.paging.kernelDir)
      && old(mem.heap.frames) <= mem.heap.frames && mem.base == old(mem.base) && mem.fixed == old(mem.fixed)
    }

    /** Every process that was there before and still is sees what it saw. */
    lemma StillSees(was: World)
      requires MemOk(was, {}, {}) && mem.Valid({}, {}) && was.fixed == mem.fixed && was.frames <= mem.heap.frames
      requires forall s :: s in was.spaces && s in mem.spaces ==> mem.spaces[s] == was.spaces[s]
      ensures forall s :: s in was.spaces && s in mem.spaces ==> SeesSame(was, mem.W(), s)
    {
      hide Spaces.Valid, MemOk, SeesSame;
      mem.MemNow({}, {});
      forall s | s in was.spaces && s in mem.spaces
        ensures SeesSame(was, mem.W(), s)
      {
        mem.SpaceAligned(s);
        Isolated(was, mem.W(), s);
      }
    }

    /** When every task has a process, the unused slots are those of no process. */
    lemma OwnedTasks()
      requires Valid()
      ensures Covered() ==> forall t :: 1 <= t < MAX_TASKS ==> (HasProcess(procs, t) <==> states[t] != Unused)
      ensures forall t :: 1 <= t < MAX_TASKS && states[t] == Unused ==> !HasProcess(procs, t)
    {
      hide Spaces.Valid, StacksOk;
      forall t | 1 <= t < MAX_TASKS && states[t] == Unused
        ensures !HasProcess(procs, t)
      {
        forall s | 0 <= s < |procs| && procs[s].active
          ensures procs[s].tid != t
        {
          assert EntryOk(s, procs[s], mem.spaces, states, mem.heap.paging.kernelDir);
        }
      }
    }

    /** The parts of the invariant. */
    lemma Parts()
      requires Valid()
      ensures mem.Valid({}, {}) && SchedSpec.Valid(SchedNow())
      ensures StacksOk(stacks, stackOf, states, Live(mem.heap.blocks))
      ensures ProcsOk(procs, mem.spaces, states, mem.heap.paging.kernelDir)
      ensures Loaded(procs, current, mem.heap.paging.kernelDir, mem.heap.paging.currentDir)
    {
      hide Spaces.Valid, StacksOk, TableShape, Loaded, SchedSpec.Valid, Live, TidsDistinct;
    }

    lemma Sizes()
      requires Valid()
      ensures |procs| == MAX_PROCESSES && |states| == MAX_TASKS && TidsDistinct(procs)
      ensures SchedSpec.Shape(SchedNow()) && SchedSpec.Valid(SchedNow())
    {
      hide Spaces.Valid;
    }

    /** Enters a finished user process into the table. */
    method Register(s: int, tid: int, cr3: u32, code: u32, stack: u32, entry: u32, page: seq<u8>,
                    ghost sp: Space, ghost was: seq<State>)
      returns (pid: u32)
      requires mem.Valid({cr3}, FramesOf(sp)) && mem.Built(sp) && sp == Space(cr3, sp.table, code, stack)
      requires TasksOk() && ProcsOk(procs, mem.spaces, was, mem.heap.paging.kernelDir)
      requires 1 <= tid < MAX_TASKS && states == was[tid := Runnable]
      requires 0 <= s < MAX_PROCESSES && !procs[s].active
      requires Loaded(procs, current, mem.heap.paging.kernelDir, mem.heap.paging.currentDir)
      modifies `procs, `nextPid, `pages, mem`spaces
      ensures AlmostValid() && (TidsDistinct(procs) <==> !HasProcess(old(procs), tid))
      ensures mem.spaces == old(mem.spaces)[s := sp] && s !in old(mem.spaces)
      ensures procs == old(procs)[s := Proc(true, pid, tid, cr3, code, stack, entry, USER_MASK, false)]
      ensures pages == old(pages)[stack := ZeroPage()][code := page] && OnlyPages(old(pages), pages, sp)
      ensures pid == NextPid(old(procs), old(nextPid)) && nextPid == PidAfter(pid)
    {
      hide Spaces.Valid, StacksOk, UserTable, Spaces.WindowIs, EntryOk, NextPid;
      TaskWaked(procs, mem.spaces, was, states, mem.heap.paging.kernelDir, tid);
      ghost var j;
      pid, j := AllocPid();
      var p := Proc(true, pid, tid, cr3, code, stack, entry, USER_MASK, false);
      NewEntryOk(s, p, mem.spaces[s := sp], states, mem.heap.paging.kernelDir);
      AddEntry(procs, mem.spaces, mem.spaces[s := sp], states, mem.heap.paging.kernelDir, s, p);
      StillLoaded(procs, current, mem.heap.paging.kernelDir, mem.heap.paging.currentDir, s, p);
      SharedTask(procs, s, p);
      procs := procs[s := p];
      pages := pages[stack := ZeroPage()][code := page];
      mem.AdoptSpace(s, sp);
    }

    /** Creates a process that runs kernel code in the kernel directory. */
    method SpawnKernel(hasEntry: bool) returns (reply: int, ghost created: bool, ghost slot: int)
      requires Valid() && mem.heap.end + STACK_ROOM <= HEAP_LIMIT
      modifies `states, `stackOf, `stacks, `procs, `nextPid
      modifies mem.heap, mem.heap.paging, mem.heap.paging.pmm, mem.heap.paging.pmm.bitmap
      ensures AlmostValid() && current == old(current) && CurrentDir() == old(CurrentDir()) && KernelKept()
      ensures created <==>
                && hasEntry && !Full(old(procs), old(states))
                && CanHave(old(mem.heap.blocks), |old(mem.heap.paging.pmm.free)|, TASK_STACK_SIZE)
      ensures reply == SpawnReply(created, old(procs), old(nextPid))
      ensures reply >= 0 <==> created && NextPid(old(procs), old(nextPid)) < 0x8000_0000
      ensures !created ==> procs == old(procs) && states == old(states) && nextPid == old(nextPid)
      ensures !created ==> Live(mem.heap.blocks) == old(Live(mem.heap.blocks)) && stacks == old(stacks)
      ensures created ==>
                && EnteredKernel(old(procs), procs, old(SchedNow()), SchedNow(), slot,
                                 NextPid(old(procs), old(nextPid)))
                && nextPid == PidAfter(NextPid(old(procs), old(nextPid)))
      ensures var n := KernelPages(hasEntry, old(procs), old(states), old(mem.heap.blocks),
                                   |old(mem.heap.paging.pmm.free)|);
              && mem.heap.end == old(mem.heap.end) + n * PAGE_SIZE
              && |old(mem.heap.blocks)| > 0 && (!created ==> mem.heap.blocks == GrowN(old(mem.heap.blocks), n))
      ensures Valid() <==> !created || !HasProcess(old(procs), procs[slot].tid)
      ensures created && old(Covered()) ==> (Valid() <==> old(states)[procs[slot].tid] == Unused)
      ensures created ==>
                StackGiven(procs[slot].tid, old(states), old(stacks), stacks,
                           old(Live(mem.heap.blocks)), Live(mem.heap.blocks))
      ensures SamePayloads(old(mem.heap.mem), mem.heap.mem, old(Live(mem.heap.blocks)) * Live(mem.heap.blocks))
      ensures forall s :: s in old(mem.spaces) ==> SeesSame(old(mem.W()), mem.W(), s)
    {
      hide Spaces.Valid, SamePayloads, Live, Window, NotKernels, StacksOk;
      hide TableShape, Loaded, SchedSpec.Valid, HasProcess, Covered, SeesSame, MemOk, CanHave, PagesFor, GrowN, NextPid;
      reply, created, slot := -1, false, 0;
      mem.HeapBlocks({}, {});
      GrowNone(mem.heap.blocks);
      mem.MemNow({}, {});
      Sizes();
      OwnedTasks();
      AgreesPayloads(mem.heap.mem, Live(mem.heap.blocks) * Live(mem.heap.blocks));
      if !hasEntry {
        StillSees(old(mem.W()));
        return;
      }
      var s := FindFreeSlot();
      slot := s;
      if s < 0 {
        StillSees(old(mem.W()));
        return;
      }
      var cr3 := mem.heap.paging.kernelDir;
      var tid := CreateTask(hasEntry, {}, {});
      StillSees(old(mem.W()));
      if tid < 0 {
        return;
      }
      var p := RegisterKernel(s, tid, cr3, old(states));
      reply, created := Signed32(p), true;
    }

    method RegisterKernel(s: int, tid: int, cr3: u32, ghost was: seq<State>) returns (pid: u32)
      requires mem.Valid({}, {}) && TasksOk() && ProcsOk(procs, mem.spaces, was, mem.heap.paging.kernelDir)
      requires 1 <= tid < MAX_TASKS && states == was[tid := Runnable] && cr3 == mem.heap.paging.kernelDir
      requires 0 <= s < MAX_PROCESSES && !procs[s].active
      requires Loaded(procs, current, mem.heap.paging.kernelDir, mem.heap.paging.currentDir)
      modifies `procs, `nextPid
      ensures AlmostValid() && (TidsDistinct(procs) <==> !HasProcess(old(procs), tid))
      ensures procs == old(procs)[s := Proc(true, pid, tid, cr3, 0, 0, Loader.CODE_BASE, KERNEL_MASK, true)]
      ensures pid == NextPid(old(procs), old(nextPid)) && nextPid == PidAfter(pid)
    {
      hide Spaces.Valid, StacksOk, NextPid;
      TaskWaked(procs, mem.spaces, was, states, mem.heap.paging.kernelDir, tid);
      ghost var j;
      pid, j := AllocPid();
      var p := Proc(true, pid, tid, cr3, 0, 0, Loader.CODE_BASE, KERNEL_MASK, true);
      AddEntry(procs, mem.spaces, mem.spaces, states, mem.heap.paging.kernelDir, s, p);
      StillLoaded(procs, current, mem.heap.paging.kernelDir, mem.heap.paging.currentDir, s, p);
      SharedTask(procs, s, p);
      procs := procs[s := p];
    }

    /** Releases everything an exited process holds, and its task. */
    method ReapEntry(i: int)
      requires Valid() && 0 <= i < MAX_PROCESSES && procs[i].active
      requires procs[i].tid != 0 && states[procs[i].tid] == Zombie
      modifies `states, `stackOf, `stacks, `procs, mem`spaces
      modifies mem.heap, mem.heap.paging, mem.heap.paging.pmm, mem.heap.paging.pmm.bitmap
      ensures Valid() && current == old(current) && CurrentDir() == old(CurrentDir()) && KernelKept()
      ensures mem.heap.end == old(mem.heap.end) && mem.heap.frames == old(mem.heap.frames)
      ensures procs == old(procs)[i := NO_PROC] && mem.spaces == old(mem.spaces) - {i}
      ensures states == old(states)[old(procs)[i].tid := Unused]
      ensures old(procs)[i].tid in old(stacks) && stacks == old(stacks) - {old(procs)[i].tid}
      ensures Live(mem.heap.blocks) == old(Live(mem.heap.blocks)) - {old(stacks)[old(procs)[i].tid]}
      ensures SamePayloads(old(mem.heap.mem), mem.heap.mem, Live(mem.heap.blocks))
      ensures old(CurrentDir()) != old(procs)[i].cr3 || old(procs)[i].isKernel
    {
      hide Spaces.Valid, SamePayloads, Live, StacksOk, Spaces.Built;
      var tid := procs[i].tid;
      EntryFacts(i);
      ReleaseMemory(i);
      RemoveEntry(procs, old(mem.spaces), states, mem.heap.paging.kernelDir, i);
      UnusedNow(procs[i := NO_PROC], mem.spaces, states, mem.heap.paging.kernelDir, tid);
      Unloaded(procs, current, mem.heap.paging.kernelDir, mem.heap.paging.currentDir, i);
      procs := procs[i := NO_PROC];
      var ok := ReapTask(tid);
    }

    /** What reaping relies on: the entry is not the kernel's own, and its directory is not loaded. */
    lemma EntryFacts(i: int)
      requires Valid() && 0 <= i < MAX_PROCESSES && procs[i].active
      requires procs[i].tid != 0 && states[procs[i].tid] == Zombie
      ensures i >= 1 && procs[i].tid != current && (procs[i].isKernel || procs[i].cr3 != mem.heap.paging.currentDir)
      ensures forall s :: 0 <= s < |procs| && s != i && procs[s].active ==> procs[s].tid != procs[i].tid
    {
      hide Spaces.Valid, StacksOk;
      assert EntryOk(i, procs[i], mem.spaces, states, mem.heap.paging.kernelDir);
      var k, dir := mem.heap.paging.kernelDir, mem.heap.paging.currentDir;
      if !procs[i].isKernel {
        mem.SpaceAligned(i);
        if exists s :: 0 <= s < |procs| && procs[s].active && procs[s].tid == current {
          var s :| 0 <= s < |procs| && procs[s].active && procs[s].tid == current;
          assert EntryOk(s, procs[s], mem.spaces, states, k);
          if !procs[s].isKernel {
            DirsApart(s, i);
          }
        }
      }
    }

    lemma DirsApart(s: int, t: int)
      requires mem.Valid({}, {}) && s in mem.spaces && t in mem.spaces && s != t
      ensures mem.spaces[s].dir != mem.spaces[t].dir
    {
      hide DirsOk, Owned, TablesOwned, HeapSeen, SpaceOk, NotKernels;
      assert mem.spaces[s].dir in FramesOf(mem.spaces[s]) && mem.spaces[t].dir in FramesOf(mem.spaces[t]);
    }

    lemma KernelOnly(i: int)
      requires mem.Valid({}, {}) && TableOk() && 0 <= i < MAX_PROCESSES && procs[i].active
      requires procs[i].cr3 == 0 || procs[i].cr3 == mem.heap.paging.kernelDir
      ensures i !in mem.spaces
    {
      hide Spaces.Valid;
      assert EntryOk(i, procs[i], mem.spaces, states, mem.heap.paging.kernelDir);
      if i in mem.spaces {
        mem.SpaceAligned(i);
      }
    }

    lemma FrameNumbers(i: int)
      requires mem.Valid({}, {}) && TableOk() && 0 <= i < MAX_PROCESSES && procs[i].active && i in mem.spaces
      ensures 0 <= procs[i].cr3 < U32_LIMIT && 0 <= procs[i].code < U32_LIMIT && 0 <= procs[i].stack < U32_LIMIT
    {
      hide DirsOk, TablesOwned, HeapSeen, SpaceOk, NotKernels, WellFormed, Pmm.Consistent;
      assert EntryOk(i, procs[i], mem.spaces, states, mem.heap.paging.kernelDir);
      assert FramesOf(mem.spaces[i]) <= AllFrames(mem.spaces);
      assert mem.spaces[i].dir in FramesOf(mem.spaces[i]) && mem.spaces[i].code in FramesOf(mem.spaces[i])
             && mem.spaces[i].stack in FramesOf(mem.spaces[i]);
    }

    /** Gives back the address space of an exited process; kernel processes have none. */
    method ReleaseMemory(i: int)
      requires mem.Valid({}, {}) && TableOk() && 1 <= i < MAX_PROCESSES && procs[i].active
      requires procs[i].isKernel || procs[i].cr3 != mem.heap.paging.currentDir
      modifies mem`spaces, mem.heap.paging, mem.heap.paging.pmm, mem.heap.paging.pmm.bitmap
      ensures mem.Valid({}, {}) && mem.spaces == old(mem.spaces) - {i} && CurrentDir() == old(CurrentDir())
      ensures mem.heap.paging.pmm.managed == old(mem.heap.paging.pmm.managed)
      ensures mem.heap.paging.kernelDir == old(mem.heap.paging.kernelDir)
    {
      hide Spaces.Valid, Spaces.Built;
      assert EntryOk(i, procs[i], mem.spaces, states, mem.heap.paging.kernelDir);
      if procs[i].cr3 == 0 || procs[i].cr3 == mem.heap.paging.kernelDir {
        KernelOnly(i);
        assert mem.spaces - {i} == mem.spaces;
        return;
      }
      FrameNumbers(i);
      var cr3, code, stack := procs[i].cr3, procs[i].code, procs[i].stack;
      ghost var sp := mem.AbandonSpace(i);
      mem.DismantleExited(cr3, code, stack, sp);
    }

    /** Releases every process whose task has exited. */
    method Reap()
      requires Valid()
      modifies `states, `stackOf, `stacks, `procs, mem`spaces
      modifies mem.heap, mem.heap.paging, mem.heap.paging.pmm, mem.heap.paging.pmm.bitmap
      ensures Valid() && current == old(current) && CurrentDir() == old(CurrentDir()) && KernelKept()
      ensures mem.heap.end == old(mem.heap.end) && mem.heap.frames == old(mem.heap.frames)
      ensures Reaped(old(procs), procs, old(states), states)
      ensures StacksReturned(old(stacks), stacks, old(Live(mem.heap.blocks)), Live(mem.heap.blocks))
      ensures SamePayloads(old(mem.heap.mem), mem.heap.mem, Live(mem.heap.blocks))
      ensures forall s :: s in mem.spaces ==> s in old(mem.spaces) && SeesSame(old(mem.W()), mem.W(), s)
    {
      hide Spaces.Valid, StacksOk, TableShape, Loaded, SchedSpec.Valid, Live, SamePayloads, StacksReturned, SeesSame,
           MemOk;
      Sizes();
      mem.MemNow({}, {});
      AgreesPayloads(mem.heap.mem, Live(mem.heap.blocks));
      NoneReturned(stacks, Live(mem.heap.blocks));
      for i := 0 to MAX_PROCESSES
        invariant Valid() && current == old(current) && CurrentDir() == old(CurrentDir())
        invariant KernelKept() && mem.heap.end == old(mem.heap.end) && mem.heap.frames == old(mem.heap.frames)
        invariant |procs| == |old(procs)| == MAX_PROCESSES && |states| == |old(states)| == MAX_TASKS
        invariant ReapedUpTo(old(procs), procs, old(states), states, i)
        invariant StacksReturned(old(stacks), stacks, old(Live(mem.heap.blocks)), Live(mem.heap.blocks))
        invariant SamePayloads(old(mem.heap.mem), mem.heap.mem, Live(mem.heap.blocks))
        invariant forall s :: s in mem.spaces ==> s in old(mem.spaces) && mem.spaces[s] == old(mem.spaces)[s]
      {
        ghost var procs1, states1, stacks1 := procs, states, stacks;
        ghost var live1, mem1 := Live(mem.heap.blocks), mem.heap.mem;
        if procs[i].active && procs[i].tid != 0 {
          TidInRange(i);
          if states[procs[i].tid] == Zombie {
            ReapEntry(i);
            OneReturned(old(stacks), stacks1, old(Live(mem.heap.blocks)), live1, procs1[i].tid);
            SameSubset(old(mem.heap.mem), mem1, live1, Live(mem.heap.blocks));
            PayloadsTrans(old(mem.heap.mem), mem1, mem.heap.mem, Live(mem.heap.blocks));
          }
        }
        ReapStep(old(procs), procs1, procs, old(states), states1, states, i);
      }
      StillSees(old(mem.W()));
    }

    lemma TidInRange(i: int)
      requires Valid() && 0 <= i < |procs| && procs[i].active
      ensures 0 <= procs[i].tid < MAX_TASKS
    {
      hide Spaces.Valid, StacksOk;
      assert EntryOk(i, procs[i], mem.spaces, states, mem.heap.paging.kernelDir);
    }

    // System calls

    /** The table entry of a task; -1 when it has none. */
    method FindByTid(tid: int) returns (idx: int)
      requires |procs| == MAX_PROCESSES
      ensures idx < 0 ==> !HasProcess(procs, tid)
      ensures idx >= 0 ==> idx < |procs| && procs[idx].active && procs[idx].tid == tid
    {
      for i := 0 to MAX_PROCESSES
        invariant forall s :: 0 <= s < i ==> !(procs[s].active && procs[s].tid == tid)
      {
        if procs[i].active && procs[i].tid == tid {
          return i;
        }
      }
      return -1;
    }

    /**
     The gate before every system call. A kernel process may make any of the 32 calls, a user process
     all of the first 20 but writing files (8) and spawning (12), and a task without a process none.
     */
    method SyscallAllowed(call: u32) returns (ok: bool)
      requires Valid()
      ensures ok ==> call < 32 && HasProcess(procs, current)
      ensures forall s :: 0 <= s < |procs| && procs[s].active && procs[s].tid == current ==>
                (ok <==> if procs[s].isKernel then call < 32 else call < 20 && call != 8 && call != 12)
    {
      hide Spaces.Valid, StacksOk, Loaded, Hits;
      if call >= 32 {
        return false;
      }
      var idx := FindByTid(current);
      if idx < 0 {
        return false;
      }
      assert EntryOk(idx, procs[idx], mem.spaces, states, mem.heap.paging.kernelDir);
      FullWord(call);
      UserCallBits(call);
      return Hits(procs[idx].mask, Mask(call));
    }

    /** Whether the current task may pass kernel pointers: it runs a kernel process or none. */
    method CurrentIsKernel() returns (r: bool)
      requires Valid()
      ensures r <==> mem.heap.paging.currentDir == mem.heap.paging.kernelDir
    {
      hide Spaces.Valid, StacksOk;
      var idx := FindByTid(current);
      if idx < 0 {
        return true;
      }
      assert EntryOk(idx, procs[idx], mem.spaces, states, mem.heap.paging.kernelDir);
      if idx in mem.spaces {
        mem.SpaceAligned(idx);
      }
      return procs[idx].isKernel;
    }

    /** While a user process runs, its own directory is loaded. */
    lemma CurrentUser(s: int)
      requires Valid() && 0 <= s < |procs| && procs[s].active && procs[s].tid == current && !procs[s].isKernel
      ensures s in mem.spaces && mem.heap.paging.currentDir == mem.spaces[s].dir && MemOk(mem.W(), {}, {})
      ensures mem.heap.paging.Shape() && mem.heap.paging.enabled
      ensures mem.spaces[s].code % PAGE_SIZE == 0 && mem.spaces[s].stack % PAGE_SIZE == 0
    {
      hide MemOk, StacksOk;
      assert EntryOk(s, procs[s], mem.spaces, states, mem.heap.paging.kernelDir);
      mem.SpaceAligned(s);
    }

    /**
     Reuse before reaping, for every kernel whose first vacancy holds a zombie: the zombie's process is still in
     the table, so an entry for a new process in that slot makes two processes share a task.
     */
    lemma ReuseShares(t: int, s: int, p: Proc)
      requires Valid() && Covered() && IsVacancy(SchedNow(), t) && states[t] == Zombie
      requires 0 <= s < |procs| && !procs[s].active && p.active && p.tid == t
      ensures HasProcess(procs, t) && !TidsDistinct(procs[s := p])
    {
      hide Spaces.Valid, StacksOk, TableShape, Loaded;
      SharedTask(procs, s, p);
    }

    // Access

    /** In every state a user process may write, and execute, its pages at 0x40000000 and 0x40001000 and no others. */
    lemma OwnPagesOnly(s: int, p: int)
      requires Valid() && s in mem.spaces && 0 <= p < PAGES
      ensures IsTable(mem.heap.paging.mem, mem.spaces[s].dir)
      ensures UserPage(mem.heap.paging.mem, mem.spaces[s].dir, p) <==> p == 0x4_0000 || p == 0x4_0001
      ensures UserPage(mem.heap.paging.mem, mem.spaces[s].dir, p) ==>
                WritablePage(mem.heap.paging.mem, mem.spaces[s].dir, p)
    {
      hide Spaces.Valid, MemOk, StacksOk, TableShape, Loaded, UserPage, WritablePage;
      mem.MemNow({}, {});
      mem.SpaceAligned(s);
      UserReach(mem.W(), s, p);
      UserWrites(mem.W(), s, p);
    }

    /** The first of them is the frame that holds its program, the second its stack. */
    lemma OwnFrames(s: int)
      requires Valid() && s in mem.spaces
      ensures IsTable(mem.heap.paging.mem, mem.spaces[s].dir)
      ensures var v := View(mem.heap.paging.mem, mem.spaces[s].dir);
              && 0x4_0000 in v && Base(v[0x4_0000]) == mem.spaces[s].code
              && 0x4_0001 in v && Base(v[0x4_0001]) == mem.spaces[s].stack
    {
      hide Spaces.Valid, MemOk, StacksOk, TableShape, Loaded, View, Base;
      mem.MemNow({}, {});
      mem.SpaceAligned(s);
      AddressSpace(mem.W(), s, 0x4_0000);
      AddressSpace(mem.W(), s, 0x4_0001);
      FlaggedWord(mem.spaces[s].code, USER_FLAGS);
      FlaggedWord(mem.spaces[s].stack, USER_FLAGS);
    }

    /** In every state and directory the kernel may write all it sees: the heap, and the identity map of boot. */
    lemma KernelPagesWritable(d: int, p: int, top: int)
      requires Valid() && d in mem.heap.paging.dirs && 0 <= p < PAGES && p / ENTRIES != USER_ENTRY
      requires SameOutsideHeap(mem.fixed, IdentityView(top))
      ensures IsTable(mem.heap.paging.mem, d) && !UserPage(mem.heap.paging.mem, d, p)
      ensures p in View(mem.heap.paging.mem, d) <==>
                if p / ENTRIES == HEAP_ENTRY then HEAP_START <= p * PAGE_SIZE < mem.heap.end else p * PAGE_SIZE < top
      ensures p in View(mem.heap.paging.mem, d) ==> WritablePage(mem.heap.paging.mem, d, p)
      ensures p in View(mem.heap.paging.mem, d) && p / ENTRIES != HEAP_ENTRY ==>
                Base(View(mem.heap.paging.mem, d)[p]) == p * PAGE_SIZE
    {
      hide Spaces.Valid, MemOk, StacksOk, TableShape, Loaded, UserPage, WritablePage, SameOutsideHeap;
      hide IdentityView, View, Base;
      mem.MemNow({}, {});
      mem.FramesAligned();
      KernelWrites(mem.W(), d, p, top);
    }

    // Owners

    /** Every used frame has one owner: the boot state, the heap, or one user process. */
    lemma OneOwner(f: int)
      requires Valid() && f in mem.heap.paging.pmm.managed
      ensures f !in mem.heap.paging.pmm.free <==>
              f in mem.base || f in SetOf(mem.heap.frames)
              || exists s :: s in mem.spaces && f in FramesOf(mem.spaces[s])
      ensures f in mem.base ==> f !in SetOf(mem.heap.frames)
      ensures forall s :: s in mem.spaces && f in FramesOf(mem.spaces[s]) ==>
                f !in mem.base && f !in SetOf(mem.heap.frames)
      ensures forall s, t :: s in mem.spaces && t in mem.spaces ==>
                f in FramesOf(mem.spaces[s]) && f in FramesOf(mem.spaces[t]) ==> s == t
    {
      hide DirsOk, HeapSeen, TablesOwned, SetOf, SpaceOk, NotKernels, StacksOk, TableShape, FramesOf, AllFrames;
      hide Tiled, Chained, NoFreePair, UsedBytes, Pmm.Consistent;
      InAllFrames(mem.spaces);
    }

    // Whole runs

    /** Every task but task 0 belongs to a process. */
    ghost predicate Covered()
      reads `states, `procs
    {
      CoveredBy(procs, states)
    }

    ghost predicate NoZombies()
      reads `states
    {
      NoneZombie(states)
    }

    /**
     Conservation: the used frames are those of the boot state, one per heap page, and exactly four
     (directory, table, code, stack) per active user process.
     */
    lemma FramesConserved()
      requires Valid()
      ensures |mem.heap.paging.pmm.managed| - |mem.heap.paging.pmm.free| ==
              |mem.base| + mem.heap.total / PAGE_SIZE + 4 * UserCount(procs)
      ensures mem.heap.paging.pmm.used == |mem.base| + mem.heap.total / PAGE_SIZE + 4 * UserCount(procs)
    {
      mem.Counted({}, {});
      hide MemOk, Tiled, Chained, NoFreePair, UsedBytes, StacksOk;
      UsersAre(procs, mem.spaces, states, mem.heap.paging.kernelDir);
    }
  }

  /** The number of active user processes. */
  function UserCount(procs: seq<Proc>): (n: nat) {
    if procs == [] then 0
    else UserCount(procs[..|procs| - 1]) + if procs[|procs| - 1].active && !procs[|procs| - 1].isKernel then 1 else 0
  }

  lemma UsersAre(procs: seq<Proc>, spaces: map<int, Space>, states: seq<State>, k: int)
    requires ProcsOk(procs, spaces, states, k) && spaces.Keys <= Slots(MAX_PROCESSES)
    ensures |spaces| == UserCount(procs)
  {
    forall s | 0 <= s < |procs|
      ensures s in spaces <==> procs[s].active && !procs[s].isKernel
    {
      assert procs[s].active ==> EntryOk(s, procs[s], spaces, states, k);
    }
    UsersCounted(procs, spaces.Keys);
  }

  lemma {:induction false} UsersCounted(procs: seq<Proc>, users: set<int>)
    requires users <= Slots(|procs|)
    requires forall s :: 0 <= s < |procs| ==> (s in users <==> procs[s].active && !procs[s].isKernel)
    ensures |users| == UserCount(procs)
  {
    if procs != [] {
      UsersCounted(procs[..|procs| - 1], users - {|procs| - 1});
    }
  }

  lemma SpawnCovered(procs: seq<Proc>, procs': seq<Proc>, states: seq<State>, states': seq<State>, s: int)
    requires 0 <= s < |procs| == |procs'| && !procs[s].active && procs'[s].active && procs' == procs[s := procs'[s]]
    requires 0 <= procs'[s].tid < |states| && states' == states[procs'[s].tid := Runnable]
    requires CoveredBy(procs, states)
    ensures CoveredBy(procs', states')
  {
    forall t | 1 <= t < |states'| && states'[t] != Unused
      ensures HasProcess(procs', t)
    {
      if t != procs'[s].tid {
        var u :| 0 <= u < |procs| && procs[u].active && procs[u].tid == t;
        assert procs'[u] == procs[u];
      }
    }
  }

  /** When every task has a process, reaping leaves no zombie, and every task that is left still has its process. */
  lemma AfterReap(procs: seq<Proc>, procs': seq<Proc>, states: seq<State>, states': seq<State>)
    requires Reaped(procs, procs', states, states') && |states| == MAX_TASKS && states[0] != Zombie
    requires CoveredBy(procs, states)
    ensures NoneZombie(states') && CoveredBy(procs', states')
  {
    forall t | 1 <= t < |states'|
      ensures states'[t] != Zombie && (states'[t] != Unused ==> HasProcess(procs', t))
    {
      if states[t] != Unused {
        var s :| 0 <= s < |procs| && procs[s].active && procs[s].tid == t;
        if states[t] == Zombie {
          assert Exited(procs[s], states);
        } else {
          assert procs'[s] == procs[s];
        }
      }
    }
  }

  /** The task of an entry is a zombie. */
  predicate Exited(p: Proc, states: seq<State>) {
    p.active && p.tid != 0 && 0 <= p.tid < |states| && states[p.tid] == Zombie
  }

  /** The first `n` entries were looked at; those of exited tasks are gone, with their tasks. */
  ghost predicate ReapedUpTo(procs: seq<Proc>, procs': seq<Proc>, states: seq<State>, states': seq<State>, n: int) {
    && |procs'| == |procs| && |states'| == |states| && 0 <= n <= |procs|
    && (forall s :: 0 <= s < n ==> procs'[s] == if Exited(procs[s], states) then NO_PROC else procs[s])
    && (forall s :: n <= s < |procs| ==> procs'[s] == procs[s])
    && (forall t :: 0 <= t < |states| ==>
          states'[t] == if exists s :: 0 <= s < n && Exited(procs[s], states) && procs[s].tid == t
                        then Unused else states[t])
  }

  lemma ReapStep(procs: seq<Proc>, procs1: seq<Proc>, procs2: seq<Proc>, states: seq<State>,
                 states1: seq<State>, states2: seq<State>, i: int)
    requires TidsDistinct(procs) && ReapedUpTo(procs, procs1, states, states1, i) && i < |procs|
    requires if Exited(procs1[i], states1)
             then procs2 == procs1[i := NO_PROC] && states2 == states1[procs1[i].tid := Unused]
             else procs2 == procs1 && states2 == states1
    ensures ReapedUpTo(procs, procs2, states, states2, i + 1)
  {
    assert procs1[i] == procs[i];
    assert Exited(procs1[i], states1) <==> Exited(procs[i], states) by {
      if Exited(procs[i], states) {
        assert forall s :: 0 <= s < i && procs[s].active ==> procs[s].tid != procs[i].tid;
      }
    }
    forall t | 0 <= t < |states|
      ensures states2[t] == if exists s :: 0 <= s < i + 1 && Exited(procs[s], states) && procs[s].tid == t
                            then Unused else states[t]
    {
      if exists s :: 0 <= s < i && Exited(procs[s], states) && procs[s].tid == t {
        var s :| 0 <= s < i && Exited(procs[s], states) && procs[s].tid == t;
        assert states1[t] == Unused;
      }
    }
  }

  ghost predicate Reaped(procs: seq<Proc>, procs': seq<Proc>, states: seq<State>, states': seq<State>) {
    ReapedUpTo(procs, procs', states, states', |procs|)
  }

  ghost predicate EnteredKernel(procs: seq<Proc>, procs': seq<Proc>, sched: Sched, sched': Sched, s: int, pid: int) {
    && 0 <= s < |procs| && !procs[s].active && |procs'| == |procs| && procs' == procs[s := procs'[s]]
    && (forall j :: 0 <= j < s ==> procs[j].active)
    && procs'[s].active && procs'[s].pid == pid && procs'[s].isKernel
    && SchedSpec.Shape(sched) && IsVacancy(sched, procs'[s].tid)
    && sched' == sched.(states := sched.states[procs'[s].tid := Runnable])
  }

  /** No entry refers to the task of a removed entry, so its slot can be cleared. */
  lemma UnusedNow(procs: seq<Proc>, spaces: map<int, Space>, states: seq<State>, k: int, tid: int)
    requires ProcsOk(procs, spaces, states, k) && 1 <= tid < MAX_TASKS
    requires forall s :: 0 <= s < |procs| && procs[s].active ==> procs[s].tid != tid
    ensures ProcsOk(procs, spaces, states[tid := Unused], k)
  {
    forall s | 0 <= s < |procs| && procs[s].active
      ensures EntryOk(s, procs[s], spaces, states[tid := Unused], k)
    {
      assert EntryOk(s, procs[s], spaces, states, k);
    }
  }

  lemma Unloaded(procs: seq<Proc>, tid: int, k: int, dir: int, i: int)
    requires Loaded(procs, tid, k, dir) && 0 <= i < |procs| && (procs[i].active ==> procs[i].tid != tid)
    ensures Loaded(procs[i := NO_PROC], tid, k, dir)
  {
    var procs' := procs[i := NO_PROC];
    if forall t :: 0 <= t < |procs'| && procs'[t].active ==> procs'[t].tid != tid {
      forall t | 0 <= t < |procs| && procs[t].active
        ensures procs[t].tid != tid
      {
        if t != i {
          assert procs'[t] == procs[t];
        }
      }
    }
  }

  /**
   When there is memory for a user process: four frames; and then, if the image can be buffered, a text that
   is not malformed - the stack is certain - and otherwise a stack in what the last frames can add.
   */
  ghost predicate Spawnable(bs: seq<Block>, free: nat, text: Option<CText>)
    requires |bs| > 0
  {
    && free >= 4
    && if CanBuffer(bs, free - 4) then Loader.OutcomeOf(text) != Loader.Malformed
       else HasFit(GrowN(bs, free - 4), TASK_STACK_SIZE)
  }

  lemma Unspawned(bs: seq<Block>, free: nat, text: Option<CText>)
    requires |bs| > 0 && (free < 4 || (CanBuffer(bs, free - 4) && Loader.OutcomeOf(text) == Loader.Malformed))
    ensures !Spawnable(bs, free, text)
  {
  }

  /** Once the address space is built, the stack can be had exactly when the process can be spawned. */
  lemma StackFollows(bs: seq<Block>, end: int, free: nat, bs': seq<Block>, free': int, text: Option<CText>)
    requires |bs| > 0 && Tiled(bs, HEAP_START, end) && NoFreePair(bs) && free >= 4
    requires !(CanBuffer(bs, free - 4) && Loader.OutcomeOf(text) == Loader.Malformed)
    requires bs' == Buffered(bs, free - 4) && free' == free - 4 - ImagePages(bs, free - 4)
    ensures CanHave(bs', free', TASK_STACK_SIZE) <==> Spawnable(bs, free, text)
  {
    hide Tiled, NoFreePair, Loader.OutcomeOf;
    OneRound(bs, HEAP_START, end, TASK_STACK_SIZE);
    assert GrowN(bs, 0) == bs;
    if HasFit(bs, Loader.IMAGE_MAX) {
      var i :| 0 <= i < |bs| && Fits(bs[i], Loader.IMAGE_MAX);
      assert Fits(bs[i], TASK_STACK_SIZE);
    }
  }

  /**
   A malformed program is not always refused: with four frames left and no block for its image, but one for
   the stack, the built-in program is started in its place.
   */
  lemma MalformedExample()
    ensures var bs := [Block(HEAP_START, 57312, false), Block(HEAP_START + 57328, 8192, true)];
            && Tiled(bs, HEAP_START, HEAP_START + 16 * PAGE_SIZE) && NoFreePair(bs)
            && Loader.OutcomeOf(Some("G")) == Loader.Malformed && !CanBuffer(bs, 0) && Spawnable(bs, 4, Some("G"))
  {
    var bs := [Block(HEAP_START, 57312, false), Block(HEAP_START + 57328, 8192, true)];
    assert Fits(bs[1], TASK_STACK_SIZE);
    assert GrowN(bs, 0) == bs;
  }

  lemma StillLoaded(procs: seq<Proc>, tid: int, k: int, dir: int, s: int, p: Proc)
    requires Loaded(procs, tid, k, dir) && 0 <= s < |procs| && !procs[s].active && p.active && p.tid != tid
    ensures Loaded(procs[s := p], tid, k, dir)
  {
    var procs' := procs[s := p];
    if forall t :: 0 <= t < |procs'| && procs'[t].active ==> procs'[t].tid != tid {
      forall t | 0 <= t < |procs| && procs[t].active
        ensures procs[t].tid != tid
      {
        assert procs'[t] == procs[t];
      }
    }
  }

  ghost predicate NoVacancy(states: seq<State>) {
    forall t :: 1 <= t < |states| ==> !Vacant(states[t])
  }

  /** Only the kernel's process, running in slot 0. */
  ghost predicate NewTable(procs: seq<Proc>, states: seq<State>, next: u32) {
    && |procs| == 32 && procs[0].active && procs[0].pid == 1
    && (forall s :: 1 <= s < 32 ==> !procs[s].active) && next == 2
    && |states| == 16 && states[0] == Running && forall t :: 1 <= t < 16 ==> states[t] == Unused
  }

  ghost predicate NoEntry(procs: seq<Proc>) {
    forall s :: 0 <= s < |procs| ==> procs[s].active
  }

  /** No table entry or no task slot is left. */
  ghost predicate Full(procs: seq<Proc>, states: seq<State>) {
    NoEntry(procs) || NoVacancy(states)
  }

  // The pages by which a spawn makes the heap grow, whether it succeeds or not

  ghost function TaskPages(hasEntry: bool, states: seq<State>, bs: seq<Block>, free: nat): (n: nat) {
    if hasEntry && !NoVacancy(states) then PagesFor(bs, free, TASK_STACK_SIZE) else 0
  }

  ghost function KernelPages(hasEntry: bool, procs: seq<Proc>, states: seq<State>, bs: seq<Block>, free: nat): (n: nat)
  {
    if NoEntry(procs) then 0 else TaskPages(hasEntry, states, bs, free)
  }

  /** For the image; and for the stack, once the address space stands. */
  ghost function PreparePages(states: seq<State>, bs: seq<Block>, free: nat, text: Option<CText>): (n: nat)
    requires |bs| > 0
  {
    var n := SpacePages(bs, free);
    if free < 4 || (CanBuffer(bs, free - 4) && Loader.OutcomeOf(text) == Loader.Malformed) then n
    else n + TaskPages(true, states, GrowN(bs, n), free - 4 - n)
  }

  ghost function SpawnPages(procs: seq<Proc>, states: seq<State>, bs: seq<Block>, free: nat, text: Option<CText>)
    : (n: nat)
    requires |bs| > 0
  {
    if NoEntry(procs) then 0 else PreparePages(states, bs, free, text)
  }

  lemma GrowNone(bs: seq<Block>)
    requires |bs| > 0
    ensures GrowN(bs, 0) == bs
  {
  }

  /** A task got a stack of its own; if a zombie had its slot, the zombie's stack went back to the heap. */
  ghost predicate StackGiven(tid: int, states: seq<State>, stacks: map<int, Block>, stacks': map<int, Block>,
                             live: set<Block>, live': set<Block>) {
    && 0 <= tid < |states| && tid in stacks' && stacks' == stacks[tid := stacks'[tid]] && stacks'[tid] !in live
    && (states[tid] == Zombie ==> tid in stacks)
    && live' == live + {stacks'[tid]} - (if states[tid] == Zombie then {stacks[tid]} else {})
  }

  /** The heap got back exactly the stacks that were dropped. */
  ghost predicate StacksReturned(stacks: map<int, Block>, stacks': map<int, Block>,
                                 live: set<Block>, live': set<Block>) {
    && (forall t :: t in stacks' ==> t in stacks && stacks'[t] == stacks[t])
    && live' == live - set t | t in stacks && t !in stacks' :: stacks[t]
  }

  lemma NoneReturned(stacks: map<int, Block>, live: set<Block>)
    ensures StacksReturned(stacks, stacks, live, live)
  {
  }

  lemma OneReturned(stacks: map<int, Block>, stacks1: map<int, Block>, live: set<Block>, live1: set<Block>, t: int)
    requires StacksReturned(stacks, stacks1, live, live1) && t in stacks1
    ensures StacksReturned(stacks, stacks1 - {t}, live, live1 - {stacks1[t]})
  {
    var gone := set u | u in stacks && u !in stacks1 :: stacks[u];
    var gone' := set u | u in stacks && u !in stacks1 - {t} :: stacks[u];
    assert gone' == gone + {stacks[t]};
  }

  /** One new process appeared: its table entry, its address space and its task; all else is as before. */
  ghost predicate Entered(procs: seq<Proc>, procs': seq<Proc>, spaces: map<int, Space>, spaces': map<int, Space>,
                          sched: Sched, sched': Sched, s: int, sp: Space, pid: int) {
    && 0 <= s < |procs| && !procs[s].active && |procs'| == |procs| && procs' == procs[s := procs'[s]]
    && (forall j :: 0 <= j < s ==> procs[j].active)
    && s !in spaces && spaces' == spaces[s := sp]
    && procs'[s].active && procs'[s].pid == pid && !procs'[s].isKernel
    && SchedSpec.Shape(sched) && IsVacancy(sched, procs'[s].tid)
    && sched' == sched.(states := sched.states[procs'[s].tid := Runnable])
  }

  /** Of all user pages only the new process's changed: its stack is zero. */
  ghost predicate OnlyPages(pages: map<int, seq<u8>>, pages': map<int, seq<u8>>, sp: Space) {
    sp.code in pages' && sp.code != sp.stack && pages' == pages[sp.stack := ZeroPage()][sp.code := pages'[sp.code]]
  }

  function ZeroPage(): seq<u8> { seq(Loader.CODE_SIZE, _ => 0) }

  /** Starting a task changes no entry, and no entry had a task in an unused slot. */
  lemma TaskWaked(procs: seq<Proc>, spaces: map<int, Space>, was: seq<State>, states: seq<State>, k: int, tid: int)
    requires ProcsOk(procs, spaces, was, k) && 1 <= tid < |was| && states == was[tid := Runnable]
    ensures ProcsOk(procs, spaces, states, k)
    ensures was[tid] == Unused ==> !HasProcess(procs, tid)
    ensures forall s :: 0 <= s < |procs| && !procs[s].active ==> s !in spaces
  {
    forall s | 0 <= s < |procs| && procs[s].active
      ensures EntryOk(s, procs[s], spaces, states, k) && (was[tid] == Unused ==> procs[s].tid != tid)
    {
      assert EntryOk(s, procs[s], spaces, was, k);
    }
  }

  lemma NewEntryOk(s: int, p: Proc, spaces: map<int, Space>, states: seq<State>, k: int)
    requires |states| == MAX_TASKS && s > 0 && 0 < p.pid < U32_LIMIT
    requires 1 <= p.tid < MAX_TASKS && states[p.tid] != Unused
    requires s in spaces && !p.isKernel && p.mask == USER_MASK
    requires p.cr3 == spaces[s].dir && p.code == spaces[s].code && p.stack == spaces[s].stack
    ensures EntryOk(s, p, spaces, states, k)
  {
  }

  lemma NextCandidatePid(start: int, j: nat)
    requires 2 <= start < U32_LIMIT && j < 33
    ensures var c := Candidate(start, j);
            Candidate(start, j + 1) == if Wrap32(c + 1) < 2 then 2 else Wrap32(c + 1)
  {
    var x := start - 2 + j;
    assert (x + 1) % PIDS == if x % PIDS == PIDS - 1 then 0 else x % PIDS + 1;
  }

  lemma MoreLive(stacks: map<int, Block>, stackOf: seq<int>, states: seq<State>, live: set<Block>, live': set<Block>)
    requires StacksOk(stacks, stackOf, states, live) && live <= live'
    ensures StacksOk(stacks, stackOf, states, live') && |stackOf| == MAX_TASKS
    ensures forall u :: u in stacks ==> stacks[u] in live
  {
    forall u | u in stacks
      ensures stacks[u] in live
    {
      assert 1 <= u < MAX_TASKS && states[u] != Unused;
    }
  }

  lemma NewStack(stacks: map<int, Block>, stackOf: seq<int>, states: seq<State>, live: set<Block>,
                 live': set<Block>, t: int, b: Block)
    requires StacksOk(stacks, stackOf, states, live) && 1 <= t < MAX_TASKS && Vacant(states[t])
    requires b in live && (forall u :: u in stacks ==> stacks[u] != b) && b.size >= TASK_STACK_SIZE
    requires live' == live - (if states[t] == Zombie && t in stacks then {stacks[t]} else {})
    ensures |stackOf| == MAX_TASKS && StacksOk(stacks[t := b], stackOf[t := Payload(b)], states[t := Runnable], live')
  {
  }

  lemma NoStack(stacks: map<int, Block>, stackOf: seq<int>, states: seq<State>, live: set<Block>,
                live': set<Block>, t: int)
    requires StacksOk(stacks, stackOf, states, live) && 1 <= t < MAX_TASKS && t in stacks && live' == live - {stacks[t]}
    ensures |stackOf| == MAX_TASKS && StacksOk(stacks - {t}, stackOf[t := 0], states[t := Unused], live')
  {
  }

  lemma SameSubset(m: Cells, m': Cells, live: set<Block>, part: set<Block>)
    requires SamePayloads(m, m', live) && part <= live
    ensures SamePayloads(m, m', part)
  {
  }

  /** Without another runnable task, the current one is task 0. */
  lemma NobodyElse(s: Sched)
    requires SchedSpec.Valid(s) && NoneRunnable(s)
    ensures s.cur == 0
  {
  }

  lemma NextSame(s: Sched, t: int, left: State)
    requires SchedSpec.Shape(s) && IsNext(s, t)
    ensures IsNext(s.(states := s.states[s.cur := left]), t)
    ensures 0 <= t < MAX_TASKS && t != s.cur && s.states[t] == Runnable
  {
  }

  /** Changing which slots run, wait or are zombies, but not which are unused, disturbs nobody. */
  lemma LiveSame(procs: seq<Proc>, spaces: map<int, Space>, states: seq<State>, states': seq<State>, k: int,
                 stacks: map<int, Block>, stackOf: seq<int>, live: set<Block>)
    requires ProcsOk(procs, spaces, states, k) && StacksOk(stacks, stackOf, states, live)
    requires |states'| == |states| && forall i :: 0 <= i < |states| ==> (states'[i] == Unused <==> states[i] == Unused)
    ensures ProcsOk(procs, spaces, states', k) && StacksOk(stacks, stackOf, states', live)
  {
    forall s | 0 <= s < |procs| && procs[s].active
      ensures EntryOk(s, procs[s], spaces, states', k)
    {
      assert EntryOk(s, procs[s], spaces, states, k);
    }
  }

  lemma NextIs(s: Sched, i: int)
    requires SchedSpec.Shape(s) && 1 <= i < MAX_TASKS && s.states[Slot(s.cur, i)] == Runnable
    requires forall j :: 1 <= j < i ==> s.states[Slot(s.cur, j)] != Runnable
    ensures IsNext(s, Slot(s.cur, i))
  {
    var t := Slot(s.cur, i);
    assert Distance(s.cur, t) == i;
    forall j | 0 <= j < MAX_TASKS && j != s.cur && Distance(s.cur, j) < Distance(s.cur, t)
      ensures s.states[j] != Runnable
    {
      DistanceOf(s.cur, j);
      assert j == Slot(s.cur, Distance(s.cur, j));
    }
  }

  lemma NoneIs(s: Sched)
    requires SchedSpec.Shape(s)
    requires forall j :: 1 <= j < MAX_TASKS ==> s.states[Slot(s.cur, j)] != Runnable
    ensures NoneRunnable(s)
  {
    forall j | 0 <= j < MAX_TASKS && j != s.cur
      ensures s.states[j] != Runnable
    {
      DistanceOf(s.cur, j);
      assert j == Slot(s.cur, Distance(s.cur, j));
    }
  }

  lemma OnlyOwner(procs: seq<Proc>, i: int, k: int)
    requires TidsDistinct(procs) && 0 <= i < |procs| && procs[i].active
    ensures Loaded(procs, procs[i].tid, k, procs[i].cr3)
  {
  }
}
