/**
 Whole runs of the system as traces of values: what each operation does to processes, memory and files,
 and what then holds of every run.
 */
module SystemSpec {
  import opened Words
  import opened PagingSpec
  import opened HeapSpec
  import opened GrowSpec
  import opened HeapModel
  import opened KernelSpec
  import opened SchedSpec
  import opened ProcSpec
  import opened SpacesModel
  import opened KernelModel
  import opened VfsSpec
  import opened VfsModel
  import opened Marshex
  import Loader

  /** What the running task may do. */
  datatype Op =
    | Spawn(name: Option<Str>)
    | SpawnTask(hasEntry: bool)
    | YieldNow
    | ExitNow
    | ReapAll
    | Write(name: Option<Str>, text: Option<Str>)
    | Read(name: Option<Str>, size: nat)

  datatype Reply = Done | Pid(pid: int) | Wrote(ok: bool) | Text(n: int, bytes: seq<u8>)

  /** The system at one moment. */
  datatype Snap = Snap(sched: Sched, procs: seq<Proc>, next: u32, pages: map<int, seq<u8>>, stacks: map<int, Block>,
                       stackOf: seq<int>, world: World, dir: int, blocks: seq<Block>, cells: Cells,
                       used: int, total: int, files: seq<File>, buffers: map<int, Block>, contents: map<Str, Str>)

  /** No file's buffer is a stack. */
  ghost predicate BuffersApart(buffers: map<int, Block>, stacks: map<int, Block>) {
    forall i, t :: i in buffers && t in stacks ==> buffers[i] != stacks[t]
  }

  /** Used frames are those of boot, one per heap page, and four per user process. */
  ghost predicate Conserved(s: Snap) {
    && s.used == |s.world.managed| - |s.world.free|
    && s.used == |s.world.base| + s.total / PAGE_SIZE + 4 * UserCount(s.procs)
  }

  /** Everything that holds between operations. */
  ghost predicate SnapOk(s: Snap) {
    && MemOk(s.world, {}, {}) && Conserved(s)
    && SchedSpec.Valid(s.sched) && StacksOk(s.stacks, s.stackOf, s.sched.states, Live(s.blocks))
    && ProcsOk(s.procs, s.world.spaces, s.sched.states, s.world.kernel)
    && Loaded(s.procs, s.sched.cur, s.world.kernel, s.dir)
    && |s.blocks| > 0 && Tiled(s.blocks, HEAP_START, s.world.end) && NoFreePair(s.blocks) && Chained(s.cells, s.blocks)
    && FilesOk(s.files, s.buffers, s.contents, Live(s.blocks), s.cells) && BuffersApart(s.buffers, s.stacks)
  }

  // What each operation does

  /** What every operation keeps: the kernel's own memory, and what each process sees that was there and still is. */
  ghost predicate Kept(a: Snap, b: Snap) {
    && b.world.managed == a.world.managed && b.world.base == a.world.base && b.world.fixed == a.world.fixed
    && b.world.kernel == a.world.kernel && a.world.frames <= b.world.frames
    && forall s :: s in a.world.spaces && s in b.world.spaces ==> SeesSame(a.world, b.world, s)
  }

  ghost predicate SameProcesses(a: Snap, b: Snap) {
    && b.sched == a.sched && b.procs == a.procs && b.next == a.next && b.pages == a.pages && b.stacks == a.stacks
    && b.world.spaces == a.world.spaces
  }

  /** The identifier of the next process was given out. */
  ghost predicate PidTaken(a: Snap, b: Snap) {
    b.next == PidAfter(NextPid(a.procs, a.next))
  }

  /** Between two moments the heap grew by this many pages. */
  ghost predicate GrewBy(a: Snap, b: Snap, n: nat) {
    b.world.end == a.world.end + n * PAGE_SIZE
  }

  ghost predicate AddedUser(a: Snap, b: Snap, text: Option<CText>, slot: int, sp: Space) {
    && Entered(a.procs, b.procs, a.world.spaces, b.world.spaces, a.sched, b.sched, slot, sp, NextPid(a.procs, a.next))
    && StackGiven(b.procs[slot].tid, a.sched.states, a.stacks, b.stacks, Live(a.blocks), Live(b.blocks))
    && OnlyPages(a.pages, b.pages, sp) && PidTaken(a, b)
    && Program(text, CanBuffer(a.blocks, |a.world.free| - 4), b.pages[sp.code], b.procs[slot].entry)
  }

  /** A user process is created, unless the table is full, memory is short, or the text is malformed. */
  ghost predicate CreatesUser(a: Snap, text: Option<CText>) {
    |a.blocks| > 0 && !Full(a.procs, a.sched.states) && Spawnable(a.blocks, |a.world.free|, text)
  }

  /** One process more, or none; the reply is its identifier as a signed integer, or -1. */
  ghost predicate SpawnedUser(a: Snap, text: Option<CText>, reply: int, b: Snap) {
    && |a.blocks| > 0 && b.dir == a.dir && b.contents == a.contents
    && reply == SpawnReply(CreatesUser(a, text), a.procs, a.next)
    && GrewBy(a, b, SpawnPages(a.procs, a.sched.states, a.blocks, |a.world.free|, text))
    && (CreatesUser(a, text) ==> exists slot, sp :: AddedUser(a, b, text, slot, sp))
    && (!CreatesUser(a, text) ==> SameProcesses(a, b) && Live(b.blocks) == Live(a.blocks))
  }

  ghost predicate AddedKernel(a: Snap, b: Snap, slot: int) {
    && EnteredKernel(a.procs, b.procs, a.sched, b.sched, slot, NextPid(a.procs, a.next)) && PidTaken(a, b)
    && b.world.spaces == a.world.spaces && b.pages == a.pages
    && StackGiven(b.procs[slot].tid, a.sched.states, a.stacks, b.stacks, Live(a.blocks), Live(b.blocks))
  }

  ghost predicate CreatesKernel(a: Snap, hasEntry: bool) {
    hasEntry && !Full(a.procs, a.sched.states) && CanHave(a.blocks, |a.world.free|, TASK_STACK_SIZE)
  }

  ghost predicate SpawnedKernel(a: Snap, hasEntry: bool, reply: int, b: Snap) {
    && b.dir == a.dir && b.contents == a.contents
    && reply == SpawnReply(CreatesKernel(a, hasEntry), a.procs, a.next)
    && GrewBy(a, b, KernelPages(hasEntry, a.procs, a.sched.states, a.blocks, |a.world.free|))
    && (CreatesKernel(a, hasEntry) ==> exists slot :: AddedKernel(a, b, slot))
    && (!CreatesKernel(a, hasEntry) ==> SameProcesses(a, b) && Live(b.blocks) == Live(a.blocks))
  }

  ghost predicate ReapedAll(a: Snap, b: Snap) {
    && Reaped(a.procs, b.procs, a.sched.states, b.sched.states) && b.sched.cur == a.sched.cur && b.next == a.next
    && StacksReturned(a.stacks, b.stacks, Live(a.blocks), Live(b.blocks)) && GrewBy(a, b, 0)
    && b.dir == a.dir && b.contents == a.contents && b.pages == a.pages && b.world.frames == a.world.frames
  }

  ghost predicate Writable(a: Snap, name: Option<Str>, text: Option<Str>) {
    && |a.blocks| > 0 && Asks(name, text)
    && Affordable(a.blocks, |a.world.free|, AlignUp8(|text.value| + 1))
    && (name.value in a.contents || |a.contents| < MAX_FILES)
  }

  /** A write grows the heap by the fewest rounds that make room for the text, or in vain by all the frames. */
  ghost predicate WriteGrows(bs: seq<Block>, free: int, name: Option<Str>, text: Option<Str>, n: nat)
    requires |bs| > 0
  {
    if Asks(name, text)
    then var want := AlignUp8(|text.value| + 1); Searched(bs, free, want, n, Affordable(bs, free, want))
    else n == 0
  }

  ghost predicate Stored(a: Snap, name: Option<Str>, text: Option<Str>, ok: bool, b: Snap) {
    && SameProcesses(a, b) && b.dir == a.dir && |a.blocks| > 0
    && (ok <==> Writable(a, name, text))
    && b.contents == (if ok then a.contents[name.value := text.value] else a.contents)
    && OnlyFiles(a.buffers, b.buffers, Live(a.blocks), Live(b.blocks))
    && exists n: nat :: WriteGrows(a.blocks, |a.world.free|, name, text, n) && GrewBy(a, b, n)
  }

  ghost predicate ReadOut(a: Snap, name: Option<Str>, size: nat, n: int, bytes: seq<u8>) {
    && (n >= 0 <==> name.Some? && name.value in a.contents && size > 0)
    && (n >= 0 ==> n == |bytes| && bytes == Truncated(a.contents[name.value], size))
  }

  /** The text of the program that a spawn names. */
  ghost function TextOf(a: Snap, name: Option<Str>): Option<CText> {
    if name.Some? then ProgramOf(a.contents, name.value) else None
  }

  /** Whether an operation creates a process. */
  ghost predicate Creates(a: Snap, op: Op) {
    (op.Spawn? && CreatesUser(a, TextOf(a, op.name))) || (op.SpawnTask? && CreatesKernel(a, op.hasEntry))
  }

  /** One operation with its reply, from one moment to the next. */
  ghost predicate Did(a: Snap, op: Op, reply: Reply, b: Snap) {
    && Kept(a, b)
    && match op
       case YieldNow =>
         reply == Done && Shape(a.sched) && Yields(a.sched, b.sched) && b == a.(sched := b.sched, dir := b.dir)
       case ExitNow =>
         reply == Done && Shape(a.sched) && Exits(a.sched, b.sched) && b == a.(sched := b.sched, dir := b.dir)
       case ReapAll => reply == Done && ReapedAll(a, b)
       case Spawn(name) =>
         reply.Pid? && SpawnedUser(a, TextOf(a, name), reply.pid, b)
       case SpawnTask(hasEntry) => reply.Pid? && SpawnedKernel(a, hasEntry, reply.pid, b)
       case Write(name, text) => reply.Wrote? && Stored(a, name, text, reply.ok, b)
       case Read(name, size) => reply.Text? && b == a && ReadOut(a, name, size, reply.n, reply.bytes)
  }

  /** A run: the moments visited, one more than the operations performed, each related to the next by its operation. */
  ghost predicate IsTrace(trace: seq<Snap>, script: seq<Op>, replies: seq<Reply>) {
    && |trace| == |replies| + 1 && |replies| <= |script|
    && (forall i :: 0 <= i < |trace| ==> SnapOk(trace[i]))
    && (forall i :: 0 <= i < |replies| ==> Did(trace[i], script[i], replies[i], trace[i + 1]))
  }

  lemma TraceStarts(s: Snap, script: seq<Op>)
    requires SnapOk(s)
    ensures IsTrace([s], script, [])
  {
    hide SnapOk, Did;
  }

  lemma TraceExtends(trace: seq<Snap>, script: seq<Op>, replies: seq<Reply>, reply: Reply, s: Snap)
    requires IsTrace(trace, script, replies) && |replies| < |script| && SnapOk(s)
    requires Did(trace[|trace| - 1], script[|replies|], reply, s)
    ensures IsTrace(trace + [s], script, replies + [reply])
  {
    hide SnapOk, Did;
    var trace', replies' := trace + [s], replies + [reply];
    forall i | 0 <= i < |replies'|
      ensures Did(trace'[i], script[i], replies'[i], trace'[i + 1])
    {
      if i < |replies| {
        assert Did(trace[i], script[i], replies[i], trace[i + 1]);
      }
    }
  }

  // Replies of spawns

  /** A spawn answers with a number that is not negative exactly when it creates a process with one below 2^31. */
  lemma ReplyExact(a: Snap, op: Op, reply: Reply, b: Snap)
    requires Did(a, op, reply, b) && (op.Spawn? || op.SpawnTask?)
    ensures reply.Pid? && (reply.pid >= 0 <==> Creates(a, op) && NextPid(a.procs, a.next) < 0x8000_0000)
  {
    hide Kept, CreatesUser, CreatesKernel, AddedUser, AddedKernel, SpawnPages, KernelPages, NextPid, TextOf;
  }

  /** With the counter at 2^31 a spawn that creates a process answers as if it had failed. */
  lemma Misreported(a: Snap, name: Option<Str>, reply: Reply, b: Snap) returns (slot: int)
    requires Did(a, Spawn(name), reply, b) && Creates(a, Spawn(name)) && a.next == 0x8000_0000
    requires forall s :: 0 <= s < |a.procs| && a.procs[s].active ==> a.procs[s].pid != 0x8000_0000
    ensures reply == Pid(-0x8000_0000) && 0 <= slot < |a.procs| == |b.procs|
    ensures !a.procs[slot].active && b.procs[slot].active && b.procs[slot].pid == 0x8000_0000
  {
    hide Kept, CreatesUser, SpawnPages, NextPid, TextOf, StackGiven, Program, OnlyPages;
    NegativeExample(a.procs);
    var s, sp :| AddedUser(a, b, TextOf(a, name), s, sp);
    slot := s;
  }

  // Which program a spawn starts

  const WELCOME := Ascii("welcome.txt")
  const HELLO_PING := Ascii("app.hello_ping")
  const HELLO_APP := Ascii("app.helloapp")
  const HELLO := Ascii("hello_ping")

  lemma NamesLong(s: Snap)
    requires SnapOk(s)
    ensures [] !in s.contents
  {
    hide MemOk, Conserved, StacksOk, ProcsOk, Loaded, Tiled, NoFreePair, Chained, SlotOk;
  }

  lemma ProgramIs(contents: map<Str, Str>, name: Str)
    requires [] !in contents
    ensures ProgramOf(contents, name) ==
            if name in contents then Some(Chars(contents[name]))
            else if name != [] && AppName(name) in contents then Some(Chars(contents[AppName(name)]))
            else None
  {
    hide Chars;
    assert APP == [97, 112, 112, 46];
  }

  /** What is started is loaded, when there is a text and room for its image. */
  lemma LoadedIs(text: Option<CText>, buffered: bool, page: seq<u8>, entry: u32)
    requires Program(text, buffered, page, entry) && (buffered ==> Loader.OutcomeOf(text) != Loader.Malformed)
    ensures if buffered && text.Some? then Loader.OutcomeOf(text) == Loader.Loaded(page, entry)
            else entry == 0x4000_0000
  {
    hide Decode, Loader.ElfPage, Loader.FlatPage;
  }

  lemma CreatedIs(a: Snap, name: Option<Str>, b: Snap, slot: int, sp: Space)
    requires CreatesUser(a, TextOf(a, name)) && AddedUser(a, b, TextOf(a, name), slot, sp)
    ensures sp.code in b.pages && slot < |b.procs| && 0 <= slot
    ensures if CanBuffer(a.blocks, |a.world.free| - 4) && TextOf(a, name).Some?
            then Loader.OutcomeOf(TextOf(a, name)) == Loader.Loaded(b.pages[sp.code], b.procs[slot].entry)
            else b.procs[slot].entry == 0x4000_0000
  {
    hide TextOf, Program, StackGiven, CanBuffer, NextPid, Loader.OutcomeOf, HasFit, GrowN, Full;
    LoadedIs(TextOf(a, name), CanBuffer(a.blocks, |a.world.free| - 4), b.pages[sp.code], b.procs[slot].entry);
  }

  lemma SpawnAdds(a: Snap, name: Option<Str>, reply: Reply, b: Snap) returns (slot: int, sp: Space)
    requires Did(a, Spawn(name), reply, b) && CreatesUser(a, TextOf(a, name))
    ensures AddedUser(a, b, TextOf(a, name), slot, sp)
    ensures 0 <= slot < |a.procs| == |b.procs| && !a.procs[slot].active && b.procs[slot].active
    ensures b.world.spaces == a.world.spaces[slot := sp]
  {
    hide TextOf, Program, StackGiven, CanBuffer, NextPid, CreatesUser, SpawnPages, Kept, OnlyPages;
    slot, sp :| AddedUser(a, b, TextOf(a, name), slot, sp);
  }

  /**
   A process started by name runs the file of that name; else the file whose name is "app." (97, 112, 112, 46)
   and that name; else, or without room for the image, the built-in program.
   */
  lemma SpawnedProgram(a: Snap, name: Str, reply: Reply, b: Snap) returns (slot: int, sp: Space)
    requires SnapOk(a) && Did(a, Spawn(Some(name)), reply, b) && Creates(a, Spawn(Some(name)))
    ensures 0 <= slot < |a.procs| == |b.procs| && !a.procs[slot].active && b.procs[slot].active
    ensures b.world.spaces == a.world.spaces[slot := sp] && sp.code in b.pages
    ensures var page, entry := b.pages[sp.code], b.procs[slot].entry;
            if !CanBuffer(a.blocks, |a.world.free| - 4) then entry == 0x4000_0000
            else if name in a.contents then
              Loader.OutcomeOf(Some(Chars(a.contents[name]))) == Loader.Loaded(page, entry)
            else if name != [] && AppName(name) in a.contents then
              Loader.OutcomeOf(Some(Chars(a.contents[AppName(name)]))) == Loader.Loaded(page, entry)
            else entry == 0x4000_0000
  {
    hide SnapOk, Did, AddedUser, CanBuffer, CreatesUser, ProgramOf, Chars, Loader.OutcomeOf;
    NamesLong(a);
    ProgramIs(a.contents, name);
    slot, sp := SpawnAdds(a, Some(name), reply, b);
    CreatedIs(a, Some(name), b, slot, sp);
  }

  /** With the files of a new system, the name "hello_ping" starts the program stored beside the greeting. */
  lemma HelloRuns(a: Snap, greeting: Str, program: Str, reply: Reply, b: Snap) returns (slot: int, sp: Space)
    requires SnapOk(a) && Did(a, Spawn(Some(HELLO)), reply, b)
    requires a.contents == map[WELCOME := greeting][HELLO_PING := program][HELLO_APP := program]
    requires !Full(a.procs, a.sched.states) && |a.world.free| >= 12
    requires Loader.OutcomeOf(Some(Chars(program))) != Loader.Malformed
    ensures 0 <= slot < |a.procs| == |b.procs| && !a.procs[slot].active && b.procs[slot].active
    ensures b.world.spaces == a.world.spaces[slot := sp] && sp.code in b.pages
    ensures Loader.OutcomeOf(Some(Chars(program))) == Loader.Loaded(b.pages[sp.code], b.procs[slot].entry)
    ensures CreatesUser(a, TextOf(a, Some(HELLO)))
  {
    hide SnapOk, Did, Full, HasFit, GrowN, Chars, Loader.OutcomeOf, ProgramOf, AppName;
    HelloNames();
    NamesLong(a);
    ProgramIs(a.contents, HELLO);
    SomeBlocks(a);
    assert CanBuffer(a.blocks, |a.world.free| - 4);
    assert Creates(a, Spawn(Some(HELLO)));
    slot, sp := SpawnedProgram(a, HELLO, reply, b);
  }

  lemma SomeBlocks(a: Snap)
    requires SnapOk(a)
    ensures |a.blocks| > 0
  {
  }

  lemma HelloNames()
    ensures AppName(HELLO) == HELLO_PING && HELLO != [] && HELLO != WELCOME && HELLO != HELLO_PING && HELLO != HELLO_APP
    ensures HELLO_PING != HELLO_APP
  {
    assert |HELLO| == 10 && |HELLO_APP| == 12 && |HELLO_PING| == 14 && |WELCOME| == 11;
    assert HELLO_PING == [97, 112, 112, 46] + HELLO;
  }

  // Files beside processes

  /** A spawned task's stack costs no file its buffer, and no file changes. */
  lemma SpawnKeepsFiles(files: seq<File>, buffers: map<int, Block>, contents: map<Str, Str>, live: set<Block>, m: Cells,
                        tid: int, states: seq<State>, stacks: map<int, Block>, stacks': map<int, Block>,
                        live': set<Block>, m': Cells)
    requires FilesOk(files, buffers, contents, live, m) && SamePayloads(m, m', live * live')
    requires StackGiven(tid, states, stacks, stacks', live, live') && BuffersApart(buffers, stacks)
    ensures FilesOk(files, buffers, contents, live', m') && BuffersApart(buffers, stacks')
  {
    hide SlotOk, SamePayloads;
    BuffersLive(files, buffers, contents, live, m);
    Survives(files, buffers, contents, live, m, live', m');
  }

  /** Reaping gives back stacks only: every file stays. */
  lemma ReapKeepsFiles(files: seq<File>, buffers: map<int, Block>, contents: map<Str, Str>, live: set<Block>, m: Cells,
                       stacks: map<int, Block>, stacks': map<int, Block>, live': set<Block>, m': Cells)
    requires FilesOk(files, buffers, contents, live, m) && SamePayloads(m, m', live')
    requires StacksReturned(stacks, stacks', live, live') && BuffersApart(buffers, stacks)
    ensures FilesOk(files, buffers, contents, live', m') && BuffersApart(buffers, stacks')
  {
    hide SlotOk, SamePayloads;
    assert live * live' == live';
    BuffersLive(files, buffers, contents, live, m);
    Survives(files, buffers, contents, live, m, live', m');
  }

  lemma QuietKeepsFiles(files: seq<File>, buffers: map<int, Block>, contents: map<Str, Str>, live: set<Block>,
                        m: Cells, m': Cells)
    requires FilesOk(files, buffers, contents, live, m) && SamePayloads(m, m', live * live)
    ensures FilesOk(files, buffers, contents, live, m')
  {
    hide SlotOk, SamePayloads;
    BuffersLive(files, buffers, contents, live, m);
    Survives(files, buffers, contents, live, m, live, m');
  }

  lemma BuffersLive(files: seq<File>, buffers: map<int, Block>, contents: map<Str, Str>, live: set<Block>, m: Cells)
    requires FilesOk(files, buffers, contents, live, m)
    ensures forall i :: i in buffers ==> buffers[i] in live
  {
    hide SlotOk;
    forall i | i in buffers
      ensures buffers[i] in live
    {
      assert files[i].used;
    }
  }

  // Files over whole runs

  /** The files that the successful writes among the first `n` operations leave. */
  function WritesOf(contents: map<Str, Str>, script: seq<Op>, replies: seq<Reply>, n: nat): (r: map<Str, Str>)
    requires n <= |replies| <= |script|
  {
    if n == 0 then contents
    else
      var before := WritesOf(contents, script, replies, n - 1);
      match script[n - 1]
      case Write(Some(name), Some(text)) => if replies[n - 1] == Wrote(true) then before[name := text] else before
      case _ => before
  }

  lemma StepContents(a: Snap, op: Op, reply: Reply, b: Snap)
    requires Did(a, op, reply, b)
    ensures b.contents ==
            match op
            case Write(Some(name), Some(text)) => if reply == Wrote(true) then a.contents[name := text] else a.contents
            case _ => a.contents
  {
    hide Kept, Affordable, AddedUser, AddedKernel, Spawnable, Full, OnlyFiles, Reaped, StacksReturned;
  }

  /** In every run, however files, processes and the heap interleave, the files are what the successful writes left. */
  lemma {:induction false} ContentsAreWrites(trace: seq<Snap>, script: seq<Op>, replies: seq<Reply>, n: nat)
    requires IsTrace(trace, script, replies) && n < |trace|
    ensures trace[n].contents == WritesOf(trace[0].contents, script, replies, n)
  {
    hide SnapOk, Did;
    if n > 0 {
      ContentsAreWrites(trace, script, replies, n - 1);
      assert Did(trace[n - 1], script[n - 1], replies[n - 1], trace[n - 1 + 1]);
      StepContents(trace[n - 1], script[n - 1], replies[n - 1], trace[n]);
    }
  }

  /** So a read returns the text last written under its name, cut to its buffer. */
  lemma ReadsLastWrite(trace: seq<Snap>, script: seq<Op>, replies: seq<Reply>, n: nat)
    requires IsTrace(trace, script, replies) && n < |replies| && script[n].Read?
    ensures replies[n].Text?
    ensures var files := WritesOf(trace[0].contents, script, replies, n);
            var (name, size) := (script[n].name, script[n].size);
            && (replies[n].n >= 0 <==> name.Some? && name.value in files && size > 0)
            && (replies[n].n >= 0 ==> replies[n].bytes == Truncated(files[name.value], size))
  {
    hide SnapOk, Kept;
    ContentsAreWrites(trace, script, replies, n);
    assert Did(trace[n], script[n], replies[n], trace[n + 1]);
  }

  // The scheduler over whole runs

  /** The scheduler event of an operation; a failed spawn and the file operations are none. */
  ghost predicate EventFits(a: Snap, op: Op, e: Event) {
    match op
    case YieldNow => e == Event.Yield
    case ExitNow => e == Event.Exit
    case ReapAll => e.Reap?
    case _ => if Creates(a, op) then e.Create? else e == Event.Idle
  }

  lemma ReapEvent(a: Snap, b: Snap) returns (e: Event)
    requires SchedSpec.Valid(a.sched) && ReapedAll(a, b)
    ensures e.Reap? && Step(a.sched, e, b.sched)
  {
    hide StacksReturned;
    var gone := set t | 1 <= t < MAX_TASKS && a.sched.states[t] == Zombie && b.sched.states[t] == Unused;
    e := Event.Reap(gone);
    forall t | 0 <= t < MAX_TASKS
      ensures b.sched.states[t] == if t in gone then Unused else a.sched.states[t]
    {
    }
    assert b.sched.states == Cleared(a.sched.states, gone);
  }

  lemma StepEvent(a: Snap, op: Op, reply: Reply, b: Snap) returns (e: Event)
    requires SchedSpec.Valid(a.sched) && Did(a, op, reply, b)
    ensures EventFits(a, op, e) && Step(a.sched, e, b.sched)
  {
    hide Kept, Affordable, Spawnable, Full, OnlyFiles, StackGiven, Program, OnlyPages, CanHave, ReapedAll, Stored,
         ReadOut;
    e := Event.Idle;
    match op {
      case YieldNow =>
        e := Event.Yield;
      case ExitNow =>
        e := Event.Exit;
      case ReapAll =>
        e := ReapEvent(a, b);
      case Spawn(name) =>
        if CreatesUser(a, TextOf(a, name)) {
          var slot, sp :| AddedUser(a, b, TextOf(a, name), slot, sp);
          e := Event.Create(b.procs[slot].tid);
        }
      case SpawnTask(hasEntry) =>
        if CreatesKernel(a, hasEntry) {
          var slot :| AddedKernel(a, b, slot);
          e := Event.Create(b.procs[slot].tid);
        }
      case Write(name, text) =>
        StoredProcs(a, name, text, reply.ok, b);
      case Read(_, _) =>
    }
  }

  ghost function Scheds(trace: seq<Snap>): (run: seq<Sched>)
    ensures |run| == |trace| && forall i :: 0 <= i < |run| ==> run[i] == trace[i].sched
  {
    seq(|trace|, i requires 0 <= i < |trace| => trace[i].sched)
  }

  /** Every run of the system is a run of the scheduler, with one event an operation. */
  lemma {:induction false} TraceRuns(trace: seq<Snap>, script: seq<Op>, replies: seq<Reply>, n: nat)
    returns (events: seq<Event>)
    requires IsTrace(trace, script, replies) && n < |trace|
    ensures |events| == n && SchedSpec.Run(Scheds(trace[..n + 1]), events)
    ensures forall i :: 0 <= i < n ==> EventFits(trace[i], script[i], events[i])
  {
    hide Did, SnapOk, Step, EventFits;
    if n == 0 {
      events := [];
      SnapSched(trace[0]);
    } else {
      var before := TraceRuns(trace, script, replies, n - 1);
      assert Did(trace[n - 1], script[n - 1], replies[n - 1], trace[n - 1 + 1]);
      SnapSched(trace[n - 1]);
      SnapSched(trace[n]);
      var e := StepEvent(trace[n - 1], script[n - 1], replies[n - 1], trace[n]);
      events := before + [e];
      var run, run1 := Scheds(trace[..n + 1]), Scheds(trace[..n]);
      forall i | 0 <= i < n
        ensures Step(run[i], events[i], run[i + 1])
      {
        if i < n - 1 {
          assert Step(run1[i], before[i], run1[i + 1]);
        }
      }
    }
  }

  lemma SnapSched(s: Snap)
    requires SnapOk(s)
    ensures SchedSpec.Valid(s.sched)
  {
  }

  /** In every run a task that is runnable at the start is served within its distance in context switches. */
  lemma RunServes(trace: seq<Snap>, script: seq<Op>, replies: seq<Reply>, w: int)
    requires IsTrace(trace, script, replies) && 0 <= w < MAX_TASKS
    requires |trace[0].sched.states| == MAX_TASKS && trace[0].sched.states[w] == Runnable
    requires var cur := trace[0].sched.cur;
             Switches(Scheds(trace)) >= if w >= cur then w - cur else MAX_TASKS - cur + w
    ensures exists k :: 0 <= k < |trace| && trace[k].sched.cur == w
  {
    hide Did, SnapOk, Step;
    var events := TraceRuns(trace, script, replies, |replies|);
    assert trace[..|trace|] == trace;
    SnapSched(trace[0]);
    BoundedWaiting(Scheds(trace), events, w);
    var k :| 0 <= k < |trace| && Scheds(trace)[k].cur == w;
    assert trace[k].sched.cur == w;
  }

  // Zombies over whole runs

  ghost predicate SnapCovered(s: Snap) {
    CoveredBy(s.procs, s.sched.states)
  }

  lemma SwitchCovers(procs: seq<Proc>, a: Sched, b: Sched, left: State)
    requires SchedSpec.Valid(a) && Switch(a, b, left) && left != Unused && CoveredBy(procs, a.states)
    ensures CoveredBy(procs, b.states) && (left != Zombie && NoneZombie(a.states) ==> NoneZombie(b.states))
  {
    hide HasProcess;
    forall t | 0 <= t < MAX_TASKS && b.states[t] != Unused
      ensures a.states[t] != Unused
    {
    }
  }

  /** Every task keeps its process; only an exit leaves a zombie, and a reap leaves none. */
  lemma StepCovered(a: Snap, op: Op, reply: Reply, b: Snap)
    requires SchedSpec.Valid(a.sched) && Did(a, op, reply, b) && SnapCovered(a)
    ensures SnapCovered(b) && (op.ReapAll? ==> NoneZombie(b.sched.states))
    ensures !op.ExitNow? && NoneZombie(a.sched.states) ==> NoneZombie(b.sched.states)
  {
    hide Kept, Affordable, Spawnable, Full, OnlyFiles, StackGiven, Program, OnlyPages, CanHave, Stored, ReadOut;
    hide CoveredBy, HasProcess, StacksReturned, Switch;
    match op {
      case YieldNow =>
        if !NoneRunnable(a.sched) {
          SwitchCovers(a.procs, a.sched, b.sched, Runnable);
        }
      case ExitNow =>
        if a.sched.cur != 0 {
          SwitchCovers(a.procs, a.sched, b.sched, Zombie);
        }
      case ReapAll =>
        AfterReap(a.procs, b.procs, a.sched.states, b.sched.states);
      case Spawn(name) =>
        if CreatesUser(a, TextOf(a, name)) {
          var slot, sp :| AddedUser(a, b, TextOf(a, name), slot, sp);
          SpawnCovered(a.procs, b.procs, a.sched.states, b.sched.states, slot);
        }
      case SpawnTask(hasEntry) =>
        if CreatesKernel(a, hasEntry) {
          var slot :| AddedKernel(a, b, slot);
          SpawnCovered(a.procs, b.procs, a.sched.states, b.sched.states, slot);
        }
      case Write(name, text) =>
        StoredProcs(a, name, text, reply.ok, b);
      case Read(_, _) =>
    }
  }

  lemma StoredProcs(a: Snap, name: Option<Str>, text: Option<Str>, ok: bool, b: Snap)
    requires Stored(a, name, text, ok, b)
    ensures b.sched == a.sched && b.procs == a.procs
  {
  }

  // Isolation over whole runs

  lemma SeesTrans(w: World, w1: World, w2: World, s: int)
    requires SeesSame(w, w1, s) && SeesSame(w1, w2, s)
    ensures SeesSame(w, w2, s)
  {
    hide View, Base, IsTable;
    var d := w.spaces[s].dir;
    forall p | 0 <= p < PAGES
      ensures AlikeAt(View(w.mem, d), View(w2.mem, d), p)
    {
      assert AlikeAt(View(w.mem, d), View(w1.mem, d), p) && AlikeAt(View(w1.mem, d), View(w2.mem, d), p);
    }
  }

  lemma UserHasSpace(s: Snap, i: int)
    requires SnapOk(s) && 0 <= i < |s.procs| && s.procs[i].active && !s.procs[i].isKernel
    ensures i in s.world.spaces
  {
    hide MemOk, Tiled, NoFreePair, Chained, FilesOk, StacksOk, Conserved;
    assert EntryOk(i, s.procs[i], s.world.spaces, s.sched.states, s.world.kernel);
  }

  lemma SnapSees(s: Snap, i: int)
    requires SnapOk(s) && i in s.world.spaces
    ensures SeesSame(s.world, s.world, i)
  {
    hide ProcsOk, Tiled, NoFreePair, Chained, FilesOk, StacksOk, Conserved, View, Owned, TablesOwned, HeapSeen;
    SpaceAt(s.world, i);
  }

  /**
   Isolation: a user process that lives from moment `i` to moment `j` of a run translates every page as before,
   but for heap pages that were added, whatever the others did in between.
   */
  lemma {:induction false} RunIsolates(trace: seq<Snap>, script: seq<Op>, replies: seq<Reply>, i: nat, j: nat, s: int)
    requires IsTrace(trace, script, replies) && i <= j < |trace| && 0 <= s
    requires forall k :: i <= k <= j ==> s < |trace[k].procs| && trace[k].procs[s].active && !trace[k].procs[s].isKernel
    ensures SeesSame(trace[i].world, trace[j].world, s)
    decreases j
  {
    hide SnapOk, SeesSame;
    UserHasSpace(trace[j], s);
    if i == j {
      SnapSees(trace[j], s);
    } else {
      RunIsolates(trace, script, replies, i, j - 1, s);
      UserHasSpace(trace[j - 1], s);
      assert Did(trace[j - 1], script[j - 1], replies[j - 1], trace[j - 1 + 1]);
      SeesTrans(trace[i].world, trace[j - 1].world, trace[j].world, s);
    }
  }

  // Pages over whole runs

  function PageAt(pages: map<int, seq<u8>>, frame: int): (page: Option<seq<u8>>) {
    if frame in pages then Some(pages[frame]) else None
  }

  /** The code and the stack page of process `s` hold what they held. */
  ghost predicate SamePages(a: Snap, b: Snap, s: int) {
    && s in a.world.spaces && s in b.world.spaces && b.world.spaces[s] == a.world.spaces[s]
    && PageAt(b.pages, a.world.spaces[s].code) == PageAt(a.pages, a.world.spaces[s].code)
    && PageAt(b.pages, a.world.spaces[s].stack) == PageAt(a.pages, a.world.spaces[s].stack)
  }

  lemma SpacesApart(w: World, s: int, t: int)
    requires MemOk(w, {}, {}) && s in w.spaces && t in w.spaces && s != t
    ensures {w.spaces[s].code, w.spaces[s].stack} !! {w.spaces[t].code, w.spaces[t].stack}
  {
    hide View, KernelPart, HeapSeen, TablesOwned;
    assert FramesOf(w.spaces[s]) !! FramesOf(w.spaces[t]);
  }

  lemma StepPages(a: Snap, op: Op, reply: Reply, b: Snap, s: int)
    requires Did(a, op, reply, b) && MemOk(b.world, {}, {}) && s in a.world.spaces && s in b.world.spaces
    ensures SamePages(a, b, s)
  {
    hide MemOk, Affordable, Spawnable, Full, OnlyFiles, StackGiven, Program, CanHave, Reaped, StacksReturned, ReadOut;
    hide SpawnPages, KernelPages, NextPid, CreatesUser, CreatesKernel, WriteGrows, TextOf;
    assert SeesSame(a.world, b.world, s);
    if op.Spawn? && CreatesUser(a, TextOf(a, op.name)) {
      var slot, sp :| AddedUser(a, b, TextOf(a, op.name), slot, sp);
      SpacesApart(b.world, s, slot);
    }
  }

  /** Whatever the others do, the pages of a process that lives from one moment to another keep their bytes. */
  lemma {:induction false} RunKeepsPages(trace: seq<Snap>, script: seq<Op>, replies: seq<Reply>, i: nat, j: nat, s: int)
    requires IsTrace(trace, script, replies) && i <= j < |trace| && 0 <= s
    requires forall k :: i <= k <= j ==> s < |trace[k].procs| && trace[k].procs[s].active && !trace[k].procs[s].isKernel
    ensures SamePages(trace[i], trace[j], s)
    decreases j
  {
    hide SnapOk, Did;
    UserHasSpace(trace[j], s);
    if i < j {
      RunKeepsPages(trace, script, replies, i, j - 1, s);
      UserHasSpace(trace[j - 1], s);
      assert Did(trace[j - 1], script[j - 1], replies[j - 1], trace[j - 1 + 1]);
      SnapMem(trace[j]);
      StepPages(trace[j - 1], script[j - 1], replies[j - 1], trace[j], s);
    }
  }

  lemma SnapMem(s: Snap)
    requires SnapOk(s)
    ensures MemOk(s.world, {}, {})
  {
    hide MemOk;
  }

  /** So a process runs the program it was started with, on a stack that starts empty, as long as it lives. */
  lemma StaysLoaded(trace: seq<Snap>, script: seq<Op>, replies: seq<Reply>, i: nat, j: nat, text: Option<CText>,
                    s: int, sp: Space)
    requires IsTrace(trace, script, replies) && i < j < |trace| && AddedUser(trace[i], trace[i + 1], text, s, sp)
    requires forall k :: i < k <= j ==> s < |trace[k].procs| && trace[k].procs[s].active && !trace[k].procs[s].isKernel
    ensures s in trace[j].world.spaces && trace[j].world.spaces[s] == sp
    ensures sp.code in trace[j].pages && sp.stack in trace[j].pages && trace[j].pages[sp.stack] == ZeroPage()
    ensures Program(text, CanBuffer(trace[i].blocks, |trace[i].world.free| - 4), trace[j].pages[sp.code],
                    trace[i + 1].procs[s].entry)
  {
    hide Did, SnapOk, StackGiven, Program, CanBuffer, NextPid, ZeroPage;
    RunKeepsPages(trace, script, replies, i + 1, j, s);
  }
}
