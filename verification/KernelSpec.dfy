/**
 The memory of the whole kernel as one value: page tables, frames and their owners. Each step
 of the process lifecycle is a transition between such values.
 */
module KernelSpec {
  import opened Words
  import opened PagingSpec
  import opened HeapModel

  /** The directory entry of the user window, and the two pages a process has there. */
  const USER_ENTRY := 256
  const CODE_PAGE := 0x40000
  const MAX_PROCESSES := 32

  /** The frames of one user process. */
  datatype Space = Space(dir: int, table: int, code: int, stack: int)

  ghost function FramesOf(sp: Space): set<int> {
    {sp.dir, sp.table, sp.code, sp.stack}
  }

  ghost predicate FourFrames(sp: Space) {
    && sp.dir != sp.table && sp.dir != sp.code && sp.dir != sp.stack
    && sp.table != sp.code && sp.table != sp.stack && sp.code != sp.stack
  }

  ghost function AllFrames(spaces: map<int, Space>): set<int> {
    set s, f | s in spaces && f in FramesOf(spaces[s]) :: f
  }

  lemma InAllFrames(spaces: map<int, Space>)
    ensures forall f :: f in AllFrames(spaces) <==> exists s :: s in spaces && f in FramesOf(spaces[s])
  {
    hide FramesOf;
  }

  ghost function AllDirs(spaces: map<int, Space>): set<int> {
    set s | s in spaces :: spaces[s].dir
  }

  function UserTable(code: int, stack: int): seq<int> {
    Zeros()[0 := code + USER_FLAGS][1 := stack + USER_FLAGS]
  }

  datatype World = World(mem: Mem, home: map<int, int>, dirs: set<int>, kernel: int,
                         managed: set<int>, free: set<int>, base: set<int>,
                         frames: seq<int>, end: int, spaces: map<int, Space>,
                         fixed: map<int, int>)

  // Directories

  /** Outside the user window the directory equals the kernel's. */
  ghost predicate KernelPart(m: Mem, k: int, d: int) {
    && IsTable(m, k) && IsTable(m, d)
    && forall i :: 0 <= i < ENTRIES && i != USER_ENTRY ==> m[d][i] == m[k][i]
  }

  /** The kernel directory has user entries only in the user window, and all its others may be written. */
  ghost predicate KernelDirOk(m: Mem, k: int) {
    && IsTable(m, k)
    && (forall i :: 0 <= i < ENTRIES && i != USER_ENTRY ==> !UserBit(m[k][i]))
    && (forall i :: 0 <= i < ENTRIES && i != USER_ENTRY && Present(m[k][i]) ==> WriteBit(m[k][i]))
    && (m[k][USER_ENTRY] == 0 || UserBit(m[k][USER_ENTRY]))
  }

  /** The user window of directory `d` is served by its own table `t`, which holds `tab`. */
  ghost predicate Window(m: Mem, home: map<int, int>, k: int, d: int, t: int, tab: seq<int>) {
    && KernelPart(m, k, d)
    && t % PAGE_SIZE == 0 && m[d][USER_ENTRY] == t + USER_FLAGS
    && t in home && home[t] == USER_ENTRY && IsTable(m, t) && m[t] == tab
  }

  /** The user window of directory `d` is empty and has no table. */
  ghost predicate Empty(m: Mem, k: int, d: int) {
    KernelPart(m, k, d) && m[d][USER_ENTRY] == 0
  }

  ghost predicate SpaceOk(m: Mem, home: map<int, int>, k: int, sp: Space) {
    FourFrames(sp) && Window(m, home, k, sp.dir, sp.table, UserTable(sp.code, sp.stack))
  }

  /** Table `t` is not the one behind the kernel directory's user window. */
  ghost predicate NotKernels(m: Mem, k: int, t: int) {
    IsTable(m, k) && (Present(m[k][USER_ENTRY]) ==> Base(m[k][USER_ENTRY]) != t)
  }

  // Owners

  /** Every used frame has exactly one owner: the boot state, the heap, a process, or the step in progress. */
  ghost predicate Owned(w: World, extra: set<int>) {
    && w.free <= w.managed
    && w.managed - w.free == w.base + SetOf(w.frames) + AllFrames(w.spaces) + extra
    && w.base !! SetOf(w.frames) && w.base !! AllFrames(w.spaces) && w.base !! extra
    && SetOf(w.frames) !! AllFrames(w.spaces) && SetOf(w.frames) !! extra && AllFrames(w.spaces) !! extra
  }

  ghost predicate Apart(spaces: map<int, Space>) {
    forall s, t :: s in spaces && t in spaces && s != t ==> FramesOf(spaces[s]) !! FramesOf(spaces[t])
  }

  /** Tables belong to the boot state, to a process, or to the step in progress. */
  ghost predicate TablesOwned(w: World, extra: set<int>) {
    forall t :: t in w.home ==> t in w.base || t in AllFrames(w.spaces) || t in extra
  }

  ghost predicate SpacesOk(w: World) {
    && Apart(w.spaces)
    && forall s :: s in w.spaces ==>
         SpaceOk(w.mem, w.home, w.kernel, w.spaces[s]) && NotKernels(w.mem, w.kernel, w.spaces[s].table)
         && PlainPages(w.home, w.spaces[s])
  }

  /** The code and stack frames are not page tables. */
  ghost predicate PlainPages(home: map<int, int>, sp: Space) {
    sp.code !in home && sp.stack !in home
  }

  /** The owners of the processes' frames see the same tables. */
  ghost predicate HomeAgrees(w: World, w': World) {
    forall t :: t in AllFrames(w.spaces) ==>
      (t in w'.home <==> t in w.home) && (t in w.home ==> w'.home[t] == w.home[t])
  }

  ghost predicate DirsOk(w: World, pending: set<int>, extra: set<int>) {
    && w.kernel !in w.managed && pending <= extra
    && w.dirs == {w.kernel} + AllDirs(w.spaces) + pending
    && WellFormed(w.mem, w.dirs, w.home)
    && KernelDirOk(w.mem, w.kernel)
    && forall d :: d in pending ==> KernelPart(w.mem, w.kernel, d)
  }

  /** The heap is visible in every directory, and the rest of the kernel's view is fixed since boot. */
  ghost predicate HeapSeen(w: World) {
    && SharedTables(w.mem, w.dirs, w.kernel, w.end) && Seen(View(w.mem, w.kernel), w.frames)
    && SameOutsideHeap(View(w.mem, w.kernel), w.fixed)
    && w.end == HEAP_PAGE * PAGE_SIZE + |w.frames| * PAGE_SIZE
  }

  /**
   The invariant. `pending` are directories and `extra` all frames that a step in progress holds;
   between steps both are empty.
   */
  ghost predicate MemOk(w: World, pending: set<int>, extra: set<int>) {
    && DirsOk(w, pending, extra) && SpacesOk(w) && Owned(w, extra) && TablesOwned(w, extra) && HeapSeen(w)
  }

  // Counting

  /** Process slots. */
  ghost function Slots(n: nat): (r: set<int>)
    ensures forall s :: s in r <==> 0 <= s < n
  {
    if n == 0 then {} else Slots(n - 1) + {n - 1}
  }

  lemma FourInSpace(sp: Space)
    requires FourFrames(sp)
    ensures |FramesOf(sp)| == 4
  {
    assert FramesOf(sp) == {sp.dir} + {sp.table} + {sp.code} + {sp.stack};
  }

  lemma {:induction false} FramesCount(spaces: map<int, Space>, n: nat)
    requires Apart(spaces) && (forall s :: s in spaces ==> FourFrames(spaces[s])) && spaces.Keys <= Slots(n)
    ensures |AllFrames(spaces)| == 4 * |spaces|
    decreases n
  {
    if n == 0 {
      assert spaces.Keys == {};
      assert |spaces.Keys| == |spaces|;
      assert AllFrames(spaces) == {};
    } else if n - 1 in spaces {
      var rest := spaces - {n - 1};
      assert rest.Keys == spaces.Keys - {n - 1};
      AllFramesRemove(spaces, n - 1);
      FourInSpace(spaces[n - 1]);
      hide AllFrames, FramesOf, FourFrames, Apart;
      FramesCount(rest, n - 1);
      assert |rest| == |rest.Keys| == |spaces.Keys| - 1;
    } else {
      assert spaces.Keys <= Slots(n - 1);
      FramesCount(spaces, n - 1);
    }
  }

  lemma AllFramesRemove(spaces: map<int, Space>, s: int)
    requires Apart(spaces) && s in spaces
    ensures AllFrames(spaces - {s}) == AllFrames(spaces) - FramesOf(spaces[s])
    ensures FramesOf(spaces[s]) <= AllFrames(spaces)
    ensures AllDirs(spaces - {s}) == AllDirs(spaces) - {spaces[s].dir}
    ensures Apart(spaces - {s})
  {
    var rest := spaces - {s};
    forall f | f in AllFrames(rest)
      ensures f in AllFrames(spaces) && f !in FramesOf(spaces[s])
    {
      var t :| t in rest && f in FramesOf(rest[t]);
      assert f in FramesOf(spaces[t]) && t != s;
    }
    forall f | f in AllFrames(spaces) && f !in FramesOf(spaces[s])
      ensures f in AllFrames(rest)
    {
      var t :| t in spaces && f in FramesOf(spaces[t]);
      assert t in rest && rest[t] == spaces[t];
    }
    forall f | f in AllDirs(rest)
      ensures f != spaces[s].dir && f in AllDirs(spaces)
    {
      var t :| t in rest && f == rest[t].dir;
      assert f in FramesOf(spaces[t]) && spaces[s].dir in FramesOf(spaces[s]);
    }
    forall f | f in AllDirs(spaces) && f != spaces[s].dir
      ensures f in AllDirs(rest)
    {
      var t :| t in spaces && f == spaces[t].dir;
      assert t in rest && rest[t] == spaces[t];
    }
  }

  lemma AllFramesAdd(spaces: map<int, Space>, s: int, sp: Space)
    requires Apart(spaces) && s !in spaces && FramesOf(sp) !! AllFrames(spaces)
    ensures AllFrames(spaces[s := sp]) == AllFrames(spaces) + FramesOf(sp)
    ensures AllDirs(spaces[s := sp]) == AllDirs(spaces) + {sp.dir}
    ensures Apart(spaces[s := sp])
  {
    var more := spaces[s := sp];
    forall f | f in AllFrames(spaces)
      ensures f in AllFrames(more)
    {
      var t :| t in spaces && f in FramesOf(spaces[t]);
      assert t in more && more[t] == spaces[t];
    }
    assert s in more && more[s] == sp;
    forall t | t in spaces
      ensures FramesOf(spaces[t]) !! FramesOf(sp)
    {
      assert forall f :: f in FramesOf(spaces[t]) ==> f in AllFrames(spaces);
    }
    forall f | f in AllDirs(spaces)
      ensures f in AllDirs(more)
    {
      var t :| t in spaces && f == spaces[t].dir;
      assert t in more && more[t] == spaces[t];
    }
  }

  ghost predicate NoRepeats(s: seq<int>) {
    forall i, j :: 0 <= i < j < |s| ==> s[i] != s[j]
  }

  lemma {:induction false} SetOfCount(s: seq<int>)
    requires NoRepeats(s)
    ensures |SetOf(s)| == |s|
  {
    if s == [] {
      assert SetOf(s) == {};
    } else {
      var n := |s| - 1;
      SetOfCount(s[..n]);
      assert SetOf(s) == SetOf(s[..n]) + {s[n]};
      assert s[n] !in SetOf(s[..n]);
    }
  }

  lemma CountParts(used: set<int>, a: set<int>, b: set<int>, c: set<int>, d: set<int>)
    requires used == a + b + c + d && a !! b && a !! c && a !! d && b !! c && b !! d && c !! d
    ensures |used| == |a| + |b| + |c| + |d|
  {
    assert |a + b| == |a| + |b|;
    assert |a + b + c| == |a + b| + |c|;
    assert |a + b + c + d| == |a + b + c| + |d|;
  }

  lemma CountRest(managed: set<int>, free: set<int>)
    requires free <= managed
    ensures |managed| - |free| == |managed - free|
  {
    assert managed == (managed - free) + free;
  }

  /**
   Conservation: used frames are the boot state's, one per heap page, four per user process,
   and those of a step in progress.
   */
  lemma Conservation(w: World, pending: set<int>, extra: set<int>)
    requires MemOk(w, pending, extra) && NoRepeats(w.frames) && w.spaces.Keys <= Slots(MAX_PROCESSES)
    ensures |w.managed| - |w.free| == |w.base| + |w.frames| + 4 * |w.spaces| + |extra|
  {
    hide DirsOk, HeapSeen, TablesOwned, AllFrames, SetOf, NoRepeats, Window, NotKernels;
    FramesCount(w.spaces, MAX_PROCESSES);
    SetOfCount(w.frames);
    CountRest(w.managed, w.free);
    CountParts(w.managed - w.free, w.base, SetOf(w.frames), AllFrames(w.spaces), extra);
  }

  // Transitions: frames

  /** A step in progress takes a free frame. */
  lemma TakeFrame(w: World, pending: set<int>, extra: set<int>, f: int)
    requires MemOk(w, pending, extra) && f in w.free
    ensures MemOk(w.(free := w.free - {f}), pending, extra + {f})
    ensures f !in w.base && f !in SetOf(w.frames)
    ensures f !in AllFrames(w.spaces) && f !in extra && f !in w.dirs && f !in w.home
  {
    hide AllFrames, SetOf, HeapSeen, SpaceOk, NotKernels, WellFormed, KernelDirOk, KernelPart, FramesOf;
    DirsUsed(w, pending, extra);
    var w' := w.(free := w.free - {f});
    assert w'.managed - w'.free == (w.managed - w.free) + {f};
    SameHeap(w, w');
    SameSpaces(w, w');
  }

  lemma DirsUsed(w: World, pending: set<int>, extra: set<int>)
    requires DirsOk(w, pending, extra) && Owned(w, extra)
    ensures forall d :: d in w.dirs && d != w.kernel ==> d in AllFrames(w.spaces) || d in extra
    ensures forall d :: d in w.dirs && d != w.kernel ==> d in w.managed && d !in w.free
  {
    forall d | d in AllDirs(w.spaces)
      ensures d in AllFrames(w.spaces)
    {
      var s :| s in w.spaces && d == w.spaces[s].dir;
      assert d in FramesOf(w.spaces[s]);
    }
  }

  lemma SameHeap(w: World, w': World)
    requires HeapSeen(w) && w'.mem == w.mem && w'.dirs == w.dirs && w'.kernel == w.kernel
    requires w'.end == w.end && w'.frames == w.frames && w'.fixed == w.fixed
    ensures HeapSeen(w')
  {
  }

  lemma SameSpaces(w: World, w': World)
    requires SpacesOk(w) && w'.mem == w.mem && w'.home == w.home && w'.kernel == w.kernel && w'.spaces == w.spaces
    ensures SpacesOk(w')
  {
    hide SpaceOk, NotKernels;
  }

  /** A step in progress gives a frame back that is neither a directory nor a table. */
  lemma ReturnFrame(w: World, pending: set<int>, extra: set<int>, f: int)
    requires MemOk(w, pending, extra) && f in extra && f !in w.dirs && f !in w.home
    ensures f in w.managed && MemOk(w.(free := w.free + {f}), pending, extra - {f})
  {
    hide AllFrames, SetOf, HeapSeen, SpaceOk, NotKernels, WellFormed, KernelDirOk, KernelPart, FramesOf;
    var w' := w.(free := w.free + {f});
    assert w'.managed - w'.free == (w.managed - w.free) - {f};
    SameHeap(w, w');
    SameSpaces(w, w');
  }

  // Transitions: page tables

  ghost predicate AgreeOff(m: Mem, m': Mem, touched: set<int>) {
    forall f :: f in m && f !in touched ==> f in m' && m'[f] == m[f]
  }

  lemma SpaceFrame(m: Mem, m': Mem, home: map<int, int>, home': map<int, int>, k: int, sp: Space, touched: set<int>)
    requires SpaceOk(m, home, k, sp) && NotKernels(m, k, sp.table)
    requires AgreeOff(m, m', touched) && k !in touched && sp.dir !in touched && sp.table !in touched
    requires sp.table in home' && home'[sp.table] == USER_ENTRY
    ensures SpaceOk(m', home', k, sp) && NotKernels(m', k, sp.table)
  {
  }

  /** Writing frames that no process owns leaves every process as it is. */
  lemma SpacesFrame(w: World, w': World, touched: set<int>)
    requires SpacesOk(w) && w'.spaces == w.spaces && w'.kernel == w.kernel
    requires AgreeOff(w.mem, w'.mem, touched) && w.kernel !in touched && touched !! AllFrames(w.spaces)
    requires HomeAgrees(w, w')
    ensures SpacesOk(w')
  {
    forall s | s in w.spaces
      ensures SpaceOk(w'.mem, w'.home, w'.kernel, w'.spaces[s]) && NotKernels(w'.mem, w'.kernel, w'.spaces[s].table)
      ensures PlainPages(w'.home, w'.spaces[s])
    {
      var sp := w.spaces[s];
      assert FramesOf(sp) <= AllFrames(w.spaces);
      assert sp.dir in FramesOf(sp) && sp.table in FramesOf(sp) && sp.code in FramesOf(sp) && sp.stack in FramesOf(sp);
      SpaceFrame(w.mem, w'.mem, w.home, w'.home, w.kernel, sp, touched);
    }
  }

  /** The directories still agree with the kernel's outside the user window. */
  lemma SameEntries(w: World, pending: set<int>, extra: set<int>)
    requires DirsOk(w, pending, extra) && SpacesOk(w)
    ensures forall d :: d in w.dirs ==> KernelPart(w.mem, w.kernel, d)
  {
    forall d | d in w.dirs
      ensures KernelPart(w.mem, w.kernel, d)
    {
      if d in AllDirs(w.spaces) {
        var s :| s in w.spaces && d == w.spaces[s].dir;
        assert SpaceOk(w.mem, w.home, w.kernel, w.spaces[s]);
      }
    }
  }

  /** An unchanged kernel view keeps the heap visible everywhere. */
  lemma HeapFrame(w: World, w': World, pending: set<int>, extra: set<int>)
    requires HeapSeen(w) && w'.kernel == w.kernel && w'.end == w.end && w'.frames == w.frames && w'.fixed == w.fixed
    requires IsTable(w.mem, w.kernel) && IsTable(w'.mem, w.kernel) && w'.mem[w.kernel] == w.mem[w.kernel]
    requires View(w'.mem, w.kernel) == View(w.mem, w.kernel)
    requires DirsOk(w', pending, extra) && SpacesOk(w')
    ensures HeapSeen(w')
  {
    hide View, Seen, SpacesOk, WellFormed;
    SameEntries(w', pending, extra);
    forall d | d in w'.dirs
      ensures IsTable(w'.mem, d) && w'.mem[d][HEAP_ENTRY] == w'.mem[w'.kernel][HEAP_ENTRY]
    {
      assert KernelPart(w'.mem, w'.kernel, d);
    }
  }

  /** A step in progress writes frames of its own. */
  lemma Edit(w: World, w': World, pending: set<int>, extra: set<int>, extra': set<int>, touched: set<int>)
    requires MemOk(w, pending, extra)
    requires w' == w.(mem := w'.mem, home := w'.home, free := w'.free)
    requires AgreeOff(w.mem, w'.mem, touched) && w.kernel !in touched && touched !! AllFrames(w.spaces)
    requires HomeAgrees(w, w')
    requires WellFormed(w'.mem, w.dirs, w'.home) && IsTable(w.mem, w.kernel)
    requires IsTable(w'.mem, w.kernel) ==> View(w'.mem, w.kernel) == View(w.mem, w.kernel)
    requires pending <= extra' && forall d :: d in pending ==> KernelPart(w'.mem, w.kernel, d)
    requires Owned(w', extra') && TablesOwned(w', extra')
    ensures MemOk(w', pending, extra')
  {
    hide WellFormed, View, Owned, AllFrames, TablesOwned, SpacesOk, HeapSeen, KernelPart;
    SpacesFrame(w, w', touched);
    HeapFrame(w, w', pending, extra');
  }

  /** A fresh directory cloned from the kernel's: its user window is empty. */
  lemma CloneStep(w: World, w': World, pending: set<int>, extra: set<int>, f: int)
    requires MemOk(w, pending, extra) && f in w.free && IsTable(w.mem, w.kernel)
    requires w' == w.(mem := w.mem[f := CloneOf(w.mem[w.kernel])], dirs := w.dirs + {f}, free := w.free - {f})
    ensures MemOk(w', pending + {f}, extra + {f}) && Empty(w'.mem, w.kernel, f)
  {
    hide View, AllFrames, SetOf, AllDirs, Seen;
    TakeFrame(w, pending, extra, f);
    CloneWellFormed(w.mem, w.dirs, w.home, w.kernel, f);
    CloneKeepsView(w.mem, w.dirs, w.home, w.kernel, f, w.kernel);
    SpacesFrame(w, w', {f});
    assert w'.dirs == {w'.kernel} + AllDirs(w'.spaces) + (pending + {f});
    HeapFrame(w, w', pending + {f}, extra + {f});
  }

  /** The user window gets a table that maps the code page. */
  lemma MapFirst(w: World, w': World, pending: set<int>, extra: set<int>, d: int, t: int, code: int)
    requires MemOk(w, pending, extra) && d in pending && Empty(w.mem, w.kernel, d) && t in w.free
    requires t % PAGE_SIZE == 0 && t != d && code % PAGE_SIZE == 0
    requires w' == w.(mem := Mapped(w.mem, d, CODE_PAGE, t, code, USER_FLAGS), home := w.home[t := USER_ENTRY],
             free := w.free - {t})
    requires WellFormed(w'.mem, w.dirs, w'.home) && IsTable(w.mem, w.kernel) && IsTable(w'.mem, w.kernel)
    requires View(w'.mem, w.kernel) == View(w.mem, w.kernel)
    ensures MemOk(w', pending, extra + {t})
    ensures Window(w'.mem, w'.home, w.kernel, d, t, Zeros()[0 := code + USER_FLAGS]) && t !in extra
  {
    hide View, AllFrames, SetOf, AllDirs, Seen, SpacesOk, HeapSeen;
    TakeFrame(w, pending, extra, t);
    assert !Present(0);
    assert UserBit(USER_FLAGS);
    assert CODE_PAGE / ENTRIES == USER_ENTRY && CODE_PAGE % ENTRIES == 0;
    Edit(w, w', pending, extra, extra + {t}, {d, t});
  }

  /** One entry of the window's table changes. */
  lemma WriteWindow(w: World, w': World, pending: set<int>, extra: set<int>, d: int, t: int, tab: seq<int>,
                    j: int, x: int)
    requires MemOk(w, pending, extra) && d in pending && t in extra && Window(w.mem, w.home, w.kernel, d, t, tab)
    requires 0 <= j < ENTRIES && w' == w.(mem := Store(w.mem, t, j, x))
    requires WellFormed(w'.mem, w.dirs, w'.home) && IsTable(w.mem, w.kernel) && IsTable(w'.mem, w.kernel)
    requires View(w'.mem, w.kernel) == View(w.mem, w.kernel)
    ensures MemOk(w', pending, extra) && Window(w'.mem, w'.home, w.kernel, d, t, tab[j := x])
  {
    hide View, AllFrames, SetOf, AllDirs, Seen, SpacesOk, HeapSeen;
    TableIsNotDir(w, pending, extra, t);
    Edit(w, w', pending, extra, extra, {t});
  }

  lemma TableIsNotDir(w: World, pending: set<int>, extra: set<int>, t: int)
    requires DirsOk(w, pending, extra) && t in w.home
    ensures t !in w.dirs && t != w.kernel
  {
  }

  /** The window's table is given back. */
  lemma CutWindow(w: World, w': World, pending: set<int>, extra: set<int>, d: int, t: int, tab: seq<int>)
    requires MemOk(w, pending, extra) && d in pending && t in extra && Window(w.mem, w.home, w.kernel, d, t, tab)
    requires w' == w.(mem := Store(w.mem, d, USER_ENTRY, 0), home := w.home - {t}, free := w.free + {t})
    requires WellFormed(w'.mem, w.dirs, w'.home) && IsTable(w.mem, w.kernel) && IsTable(w'.mem, w.kernel)
    requires View(w'.mem, w.kernel) == View(w.mem, w.kernel)
    ensures t != d && MemOk(w', pending, extra - {t}) && Empty(w'.mem, w.kernel, d)
  {
    hide View, AllFrames, SetOf, AllDirs, Seen, SpacesOk, HeapSeen;
    TableIsNotDir(w, pending, extra, t);
    assert w'.managed - w'.free == (w.managed - w.free) - {t};
    Edit(w, w', pending, extra, extra - {t}, {d});
  }

  /** A pending directory is retired. */
  lemma RetireDir(w: World, w': World, pending: set<int>, extra: set<int>, d: int)
    requires MemOk(w, pending, extra) && d in pending && d !in w.home
    requires w' == w.(dirs := w.dirs - {d}, free := w.free + {d})
    ensures d in w.managed && MemOk(w', pending - {d}, extra - {d})
  {
    hide View, AllFrames, SetOf, Seen, SpaceOk;
    DirsUsed(w, pending, extra);
    DirsInFrames(w);
    assert w'.managed - w'.free == (w.managed - w.free) - {d};
    SameSpaces(w, w');
    assert w'.dirs == {w'.kernel} + AllDirs(w'.spaces) + (pending - {d});
    HeapFrame(w, w', pending - {d}, extra - {d});
  }

  lemma DirsInFrames(w: World)
    ensures AllDirs(w.spaces) <= AllFrames(w.spaces)
  {
    forall d | d in AllDirs(w.spaces)
      ensures d in AllFrames(w.spaces)
    {
      var s :| s in w.spaces && d == w.spaces[s].dir;
      assert d in FramesOf(w.spaces[s]);
    }
  }

  lemma AdoptSpaces(w: World, w': World, s: int, sp: Space)
    requires SpacesOk(w) && s !in w.spaces
    requires w' == w.(spaces := w.spaces[s := sp]) && FramesOf(sp) !! AllFrames(w.spaces)
    requires SpaceOk(w.mem, w.home, w.kernel, sp) && NotKernels(w.mem, w.kernel, sp.table) && PlainPages(w.home, sp)
    ensures SpacesOk(w')
  {
    AllFramesAdd(w.spaces, s, sp);
    hide SpaceOk, NotKernels, Apart, AllFrames, FramesOf;
  }

  lemma DirsMove(w: World, w': World, pending: set<int>, extra: set<int>, pending': set<int>, extra': set<int>)
    requires DirsOk(w, pending, extra) && w' == w.(spaces := w'.spaces) && pending' <= extra'
    requires AllDirs(w'.spaces) + pending' == AllDirs(w.spaces) + pending
    requires forall d :: d in pending' ==> KernelPart(w.mem, w.kernel, d)
    ensures DirsOk(w', pending', extra')
  {
    hide AllDirs, WellFormed, KernelDirOk, KernelPart;
    assert w'.dirs == {w'.kernel} + (AllDirs(w'.spaces) + pending');
  }

  /** A finished address space gets its owner in the process table. */
  lemma Adopt(w: World, w': World, pending: set<int>, extra: set<int>, s: int, sp: Space)
    requires MemOk(w, pending, extra) && s !in w.spaces && w' == w.(spaces := w.spaces[s := sp])
    requires sp.dir in pending && FramesOf(sp) <= extra
    requires SpaceOk(w.mem, w.home, w.kernel, sp) && NotKernels(w.mem, w.kernel, sp.table) && PlainPages(w.home, sp)
    requires pending * FramesOf(sp) == {sp.dir}
    ensures MemOk(w', pending - {sp.dir}, extra - FramesOf(sp))
  {
    assert FramesOf(sp) !! AllFrames(w.spaces);
    AllFramesAdd(w.spaces, s, sp);
    AdoptSpaces(w, w', s, sp);
    hide AllFrames, SetOf, SpacesOk, AllDirs, FramesOf, WellFormed, KernelPart, KernelDirOk, HeapSeen, Apart;
    MoveSets(AllFrames(w.spaces), extra, FramesOf(sp));
    MoveSets(AllDirs(w.spaces), pending, {sp.dir});
    OwnedMoves(w, w', extra, extra - FramesOf(sp));
    DirsMove(w, w', pending, extra, pending - {sp.dir}, extra - FramesOf(sp));
    SameHeap(w, w');
  }

  lemma MoveSets(a: set<int>, b: set<int>, c: set<int>)
    requires c <= b
    ensures (a + c) + (b - c) == a + b
  {
  }

  /** Frames move between the step in progress and the processes. */
  lemma OwnedMoves(w: World, w': World, extra: set<int>, extra': set<int>)
    requires Owned(w, extra) && w' == w.(spaces := w'.spaces)
    requires AllFrames(w'.spaces) + extra' == AllFrames(w.spaces) + extra && AllFrames(w'.spaces) !! extra'
    ensures Owned(w', extra')
  {
    hide AllFrames, SetOf;
    var x, y := AllFrames(w.spaces) + extra, AllFrames(w'.spaces) + extra';
    assert AllFrames(w'.spaces) <= x && extra' <= x;
  }

  lemma AbandonSpaces(w: World, w': World, s: int)
    requires SpacesOk(w) && s in w.spaces && w' == w.(spaces := w.spaces - {s})
    ensures SpacesOk(w')
    ensures SpaceOk(w.mem, w.home, w.kernel, w.spaces[s])
    ensures NotKernels(w.mem, w.kernel, w.spaces[s].table) && PlainPages(w.home, w.spaces[s])
    ensures KernelPart(w.mem, w.kernel, w.spaces[s].dir) && w.spaces[s].dir in FramesOf(w.spaces[s])
    ensures w.spaces[s].dir in AllDirs(w.spaces)
  {
    AllFramesRemove(w.spaces, s);
  }

  /** A process loses its address space to a step in progress. */
  lemma Abandon(w: World, w': World, s: int)
    requires MemOk(w, {}, {}) && s in w.spaces && w' == w.(spaces := w.spaces - {s})
    ensures MemOk(w', {w.spaces[s].dir}, FramesOf(w.spaces[s]))
    ensures SpaceOk(w'.mem, w'.home, w'.kernel, w.spaces[s])
    ensures NotKernels(w'.mem, w'.kernel, w.spaces[s].table) && PlainPages(w'.home, w.spaces[s])
  {
    var sp := w.spaces[s];
    AllFramesRemove(w.spaces, s);
    AbandonSpaces(w, w', s);
    hide AllFrames, SetOf, SpaceOk, NotKernels, SpacesOk, AllDirs, FramesOf, WellFormed, KernelPart, KernelDirOk,
         HeapSeen, Apart;
    MoveSets({}, AllFrames(w.spaces), FramesOf(sp));
    MoveSets({}, AllDirs(w.spaces), {sp.dir});
    OwnedMoves(w, w', {}, FramesOf(sp));
    DirsMove(w, w', {}, {}, {sp.dir}, FramesOf(sp));
    SameHeap(w, w');
  }

  /** The heap grows through the shared table. */
  lemma HeapStep(w: World, w': World, pending: set<int>, extra: set<int>, t: int)
    requires MemOk(w, pending, extra)
    requires w' == w.(mem := w'.mem, free := w'.free, frames := w'.frames, end := w'.end)
    requires Growth(w.frames, w'.frames, w.free, w'.free, w.mem, w'.mem, t)
    requires t in w.home && w.home[t] != USER_ENTRY && WellFormed(w'.mem, w.dirs, w.home)
    requires HeapSeen(w')
    ensures MemOk(w', pending, extra)
    ensures forall d, u, tab :: Window(w.mem, w.home, w.kernel, d, u, tab) && d in w.dirs ==>
              Window(w'.mem, w'.home, w.kernel, d, u, tab)
    ensures forall d :: Empty(w.mem, w.kernel, d) && d in w.dirs ==> Empty(w'.mem, w.kernel, d)
    ensures forall u :: NotKernels(w.mem, w.kernel, u) ==> NotKernels(w'.mem, w.kernel, u)
  {
    TableIsNotDir(w, pending, extra, t);
    HeapOwned(w, w', extra);
    hide View, SetOf, Seen, HeapSeen, AllFrames;
    assert w'.mem[w.kernel] == w.mem[w.kernel];
    forall s | s in w.spaces
      ensures SpaceOk(w'.mem, w'.home, w'.kernel, w'.spaces[s]) && NotKernels(w'.mem, w'.kernel, w'.spaces[s].table)
    {
      var sp := w.spaces[s];
      assert sp.dir in w.dirs by {
        assert sp.dir in AllDirs(w.spaces);
      }
      SpaceFrame(w.mem, w'.mem, w.home, w'.home, w.kernel, sp, {t});
    }
  }

  lemma HeapOwned(w: World, w': World, extra: set<int>)
    requires Owned(w, extra) && w'.managed == w.managed && w'.base == w.base && w'.spaces == w.spaces
    requires w.frames <= w'.frames && SetOf(w'.frames) <= SetOf(w.frames) + w.free
    requires w'.free == w.free - SetOf(w'.frames)
    ensures Owned(w', extra)
  {
    hide AllFrames;
    forall f | f in w.frames
      ensures f in w'.frames
    {
      var i :| 0 <= i < |w.frames| && w.frames[i] == f;
      assert w'.frames[i] == f;
    }
  }

  // The address space of a process

  /** The window's table decides the pages of the user window. */
  lemma WindowPages(m: Mem, home: map<int, int>, k: int, d: int, t: int, tab: seq<int>, p: int)
    requires Window(m, home, k, d, t, tab) && 0 <= p < PAGES && p / ENTRIES == USER_ENTRY
    ensures |tab| == ENTRIES && Pte(m, d, p) == tab[p % ENTRIES]
  {
    FlaggedWord(t, USER_FLAGS);
  }

  lemma UserPages2(code: int, stack: int, j: int)
    requires 0 <= j < ENTRIES
    ensures UserTable(code, stack)[j] == if j == 0 then code + USER_FLAGS else if j == 1 then stack + USER_FLAGS else 0
  {
  }

  ghost function OwnPages(sp: Space): map<int, int> {
    map[CODE_PAGE := sp.code + USER_FLAGS, CODE_PAGE + 1 := sp.stack + USER_FLAGS]
  }

  lemma WindowView(m: Mem, home: map<int, int>, k: int, sp: Space, p: int)
    requires SpaceOk(m, home, k, sp) && 0 <= p < PAGES && p / ENTRIES == USER_ENTRY
    requires sp.code % PAGE_SIZE == 0 && sp.stack % PAGE_SIZE == 0
    ensures IsTable(m, sp.dir) && SameAt(View(m, sp.dir), OwnPages(sp), p)
  {
    ViewMember(m, sp.dir, p);
    WindowPages(m, home, k, sp.dir, sp.table, UserTable(sp.code, sp.stack), p);
    FlaggedWord(sp.code, USER_FLAGS);
    FlaggedWord(sp.stack, USER_FLAGS);
    UserPages2(sp.code, sp.stack, p % ENTRIES);
    hide View, Pte, UserTable, SpaceOk;
  }

  lemma HeapView(w: World, p: int)
    requires HeapSeen(w) && 0 <= p < PAGES && p / ENTRIES == HEAP_ENTRY && IsTable(w.mem, w.kernel)
    ensures p in View(w.mem, w.kernel) <==> HEAP_PAGE <= p < HEAP_PAGE + |w.frames|
    ensures HEAP_PAGE <= p < HEAP_PAGE + |w.frames| ==> LeadsTo(View(w.mem, w.kernel), p, w.frames[p - HEAP_PAGE])
  {
    hide View;
    if HEAP_PAGE <= p < HEAP_PAGE + |w.frames| {
      SeenAt(View(w.mem, w.kernel), w.frames, p - HEAP_PAGE);
    } else {
      assert w.end / PAGE_SIZE <= p < HEAP_LIMIT / PAGE_SIZE;
    }
  }

  lemma SpaceAt(w: World, s: int)
    requires SpacesOk(w) && s in w.spaces
    ensures SpaceOk(w.mem, w.home, w.kernel, w.spaces[s])
    ensures KernelPart(w.mem, w.kernel, w.spaces[s].dir)
  {
  }

  /** What page `p` of a process's flat map must be. */
  ghost predicate PageOf(v: map<int, int>, sp: Space, frames: seq<int>, fixed: map<int, int>, p: int) {
    if p / ENTRIES == USER_ENTRY then SameAt(v, OwnPages(sp), p)
    else if p / ENTRIES == HEAP_ENTRY then
      && (p in v <==> HEAP_PAGE <= p < HEAP_PAGE + |frames|)
      && (HEAP_PAGE <= p < HEAP_PAGE + |frames| ==> LeadsTo(v, p, frames[p - HEAP_PAGE]))
    else SameAt(v, fixed, p)
  }

  lemma OutsideWindow(w: World, sp: Space, p: int)
    requires HeapSeen(w) && KernelPart(w.mem, w.kernel, sp.dir) && 0 <= p < PAGES && p / ENTRIES != USER_ENTRY
    ensures PageOf(View(w.mem, sp.dir), sp, w.frames, w.fixed, p)
  {
    SharedPte(w.mem, sp.dir, w.kernel, p);
    if p / ENTRIES == HEAP_ENTRY {
      HeapView(w, p);
    } else {
      assert SameAt(View(w.mem, w.kernel), w.fixed, p);
    }
    hide View, HeapSeen, KernelPart;
  }

  /**
   In every state, a process sees exactly: its own code and stack page in the user window, the
   heap's pages, and what the kernel directory mapped at boot. No other process can change any of it.
   */
  lemma AddressSpace(w: World, s: int, p: int)
    requires MemOk(w, {}, {}) && s in w.spaces && 0 <= p < PAGES
    requires w.spaces[s].code % PAGE_SIZE == 0 && w.spaces[s].stack % PAGE_SIZE == 0
    ensures IsTable(w.mem, w.spaces[s].dir)
    ensures PageOf(View(w.mem, w.spaces[s].dir), w.spaces[s], w.frames, w.fixed, p)
  {
    hide View, HeapSeen, SpacesOk, Owned, TablesOwned, DirsOk, SpaceOk;
    SpaceAt(w, s);
    if p / ENTRIES == USER_ENTRY {
      WindowView(w.mem, w.home, w.kernel, w.spaces[s], p);
    } else {
      OutsideWindow(w, w.spaces[s], p);
    }
  }

  /** User code can reach its own code and stack page and nothing else. */
  lemma UserReach(w: World, s: int, p: int)
    requires MemOk(w, {}, {}) && s in w.spaces && 0 <= p < PAGES
    requires w.spaces[s].code % PAGE_SIZE == 0 && w.spaces[s].stack % PAGE_SIZE == 0
    ensures IsTable(w.mem, w.spaces[s].dir)
    ensures UserPage(w.mem, w.spaces[s].dir, p) <==> p == CODE_PAGE || p == CODE_PAGE + 1
  {
    hide View, HeapSeen, SpacesOk, Owned, TablesOwned, WellFormed, UserTable, Pte, Zeros;
    SpaceAt(w, s);
    var sp := w.spaces[s];
    if p / ENTRIES == USER_ENTRY {
      WindowPages(w.mem, w.home, w.kernel, sp.dir, sp.table, UserTable(sp.code, sp.stack), p);
      UserPages2(sp.code, sp.stack, p % ENTRIES);
      FlaggedWord(sp.table, USER_FLAGS);
      FlaggedWord(sp.code, USER_FLAGS);
      FlaggedWord(sp.stack, USER_FLAGS);
      assert !Present(0);
    } else {
      assert w.mem[sp.dir][p / ENTRIES] == w.mem[w.kernel][p / ENTRIES];
    }
  }

  /** And it may write both of them. */
  lemma UserWrites(w: World, s: int, p: int)
    requires MemOk(w, {}, {}) && s in w.spaces && 0 <= p < PAGES
    requires w.spaces[s].code % PAGE_SIZE == 0 && w.spaces[s].stack % PAGE_SIZE == 0
    ensures IsTable(w.mem, w.spaces[s].dir)
    ensures UserPage(w.mem, w.spaces[s].dir, p) && WritablePage(w.mem, w.spaces[s].dir, p) <==>
            p == CODE_PAGE || p == CODE_PAGE + 1
  {
    hide View, HeapSeen, SpacesOk, Owned, TablesOwned, WellFormed, UserTable, Pte, Zeros, DirsOk, UserPage;
    UserReach(w, s, p);
    SpaceAt(w, s);
    var sp := w.spaces[s];
    if p == CODE_PAGE || p == CODE_PAGE + 1 {
      WindowPages(w.mem, w.home, w.kernel, sp.dir, sp.table, UserTable(sp.code, sp.stack), p);
      UserPages2(sp.code, sp.stack, p % ENTRIES);
      FlaggedWord(sp.table, USER_FLAGS);
      FlaggedWord(sp.code, USER_FLAGS);
      FlaggedWord(sp.stack, USER_FLAGS);
    }
  }

  lemma KernelEntry(w: World, d: int, i: int)
    requires DirsOk(w, {}, {}) && SpacesOk(w) && d in w.dirs && 0 <= i < ENTRIES && i != USER_ENTRY
    ensures w.kernel in w.dirs && IsTable(w.mem, w.kernel)
    ensures IsTable(w.mem, d) && w.mem[d][i] == w.mem[w.kernel][i] && !UserBit(w.mem[d][i])
    ensures Present(w.mem[d][i]) ==> WriteBit(w.mem[d][i])
  {
    hide Window, UserTable;
    if d != w.kernel {
      var s :| s in w.spaces && w.spaces[s].dir == d;
      SpaceAt(w, s);
    }
  }

  /**
   The kernel may write every page it sees, in whichever directory: the heap's, and those of an identity map at boot.
   User code may touch none of them.
   */
  lemma KernelWrites(w: World, d: int, p: int, top: int)
    requires MemOk(w, {}, {}) && d in w.dirs && 0 <= p < PAGES && p / ENTRIES != USER_ENTRY
    requires SameOutsideHeap(w.fixed, IdentityView(top)) && forall f :: f in w.frames ==> f % PAGE_SIZE == 0
    ensures IsTable(w.mem, d) && !UserPage(w.mem, d, p)
    ensures p in View(w.mem, d) <==>
              if p / ENTRIES == HEAP_ENTRY then HEAP_PAGE <= p < HEAP_PAGE + |w.frames| else p * PAGE_SIZE < top
    ensures p in View(w.mem, d) ==> WritablePage(w.mem, d, p)
    ensures p in View(w.mem, d) && p / ENTRIES != HEAP_ENTRY ==> Base(View(w.mem, d)[p]) == p * PAGE_SIZE
  {
    hide SpacesOk, Owned, TablesOwned, DirsOk, View, Pte, SharedTables, Seen;
    KernelEntry(w, d, p / ENTRIES);
    SharedPte(w.mem, d, w.kernel, p);
    ViewMember(w.mem, d, p);
    ViewMember(w.mem, w.kernel, p);
    if p in View(w.mem, d) {
      EntryFirst(w.mem, d, p);
    }
    if p / ENTRIES == HEAP_ENTRY {
      HeapView(w, p);
      if HEAP_PAGE <= p < HEAP_PAGE + |w.frames| {
        assert w.frames[p - HEAP_PAGE] in w.frames;
        FlaggedWord(w.frames[p - HEAP_PAGE], KERNEL_FLAGS);
      }
    } else {
      assert SameAt(View(w.mem, w.kernel), w.fixed, p) && SameAt(w.fixed, IdentityView(top), p);
      FlaggedWord(p * PAGE_SIZE, KERNEL_FLAGS);
    }
  }

  /**
   Isolation: between any two states of a run, however far apart, a process that keeps its address
   space translates every page outside the heap alike, and still sees every heap page it saw.
   */
  lemma Isolation(w: World, w': World, s: int, p: int)
    requires MemOk(w, {}, {}) && MemOk(w', {}, {}) && w'.fixed == w.fixed && 0 <= p < PAGES
    requires s in w.spaces && s in w'.spaces && w'.spaces[s] == w.spaces[s]
    requires w.spaces[s].code % PAGE_SIZE == 0 && w.spaces[s].stack % PAGE_SIZE == 0
    ensures IsTable(w.mem, w.spaces[s].dir) && IsTable(w'.mem, w.spaces[s].dir)
    ensures p / ENTRIES != HEAP_ENTRY ==> SameAt(View(w.mem, w.spaces[s].dir), View(w'.mem, w.spaces[s].dir), p)
    ensures p / ENTRIES == HEAP_ENTRY && w.frames <= w'.frames && p in View(w.mem, w.spaces[s].dir) ==>
              p in View(w'.mem, w.spaces[s].dir)
              && Base(View(w'.mem, w.spaces[s].dir)[p]) == Base(View(w.mem, w.spaces[s].dir)[p])
  {
    hide View, MemOk, OwnPages, Base, IsTable;
    AddressSpace(w, s, p);
    AddressSpace(w', s, p);
  }

  /** Page `p` in two views of one process, apart from growth of the heap. */
  ghost predicate AlikeAt(v: map<int, int>, v': map<int, int>, p: int) {
    if p / ENTRIES != HEAP_ENTRY then SameAt(v, v', p) else p in v ==> p in v' && Base(v'[p]) == Base(v[p])
  }

  /** Process slot `s` has the same address space in both states and translates every page alike. */
  ghost predicate SeesSame(w: World, w': World, s: int) {
    && s in w.spaces && s in w'.spaces && w'.spaces[s] == w.spaces[s]
    && IsTable(w.mem, w.spaces[s].dir) && IsTable(w'.mem, w.spaces[s].dir)
    && forall p :: 0 <= p < PAGES ==> AlikeAt(View(w.mem, w.spaces[s].dir), View(w'.mem, w.spaces[s].dir), p)
  }

  lemma Isolated(w: World, w': World, s: int)
    requires MemOk(w, {}, {}) && MemOk(w', {}, {}) && w'.fixed == w.fixed && w.frames <= w'.frames
    requires s in w.spaces && s in w'.spaces && w'.spaces[s] == w.spaces[s]
    requires w.spaces[s].code % PAGE_SIZE == 0 && w.spaces[s].stack % PAGE_SIZE == 0
    ensures SeesSame(w, w', s)
  {
    hide View, MemOk, IsTable, SameAt, Base;
    Isolation(w, w', s, 0);
    forall p | 0 <= p < PAGES
      ensures AlikeAt(View(w.mem, w.spaces[s].dir), View(w'.mem, w.spaces[s].dir), p)
    {
      Isolation(w, w', s, p);
    }
  }

  // Facts for the steps of construction

  lemma EmptyFacts(m: Mem, k: int, d: int)
    requires Empty(m, k, d)
    ensures !Present(m[d][USER_ENTRY]) && CODE_PAGE !in View(m, d) && CODE_PAGE + 1 !in View(m, d)
  {
    assert !Present(0);
    AbsentEntry(m, d, USER_ENTRY);
  }

  /** A table that was just put into another directory's window is not the kernel's. */
  lemma KernelMisses(w: World, d: int, t: int, code: int)
    requires WellFormed(w.mem, w.dirs, w.home) && w.kernel in w.dirs
    requires d in w.dirs && d != w.kernel && Empty(w.mem, w.kernel, d)
    requires Unused(w.dirs, w.home, t)
    ensures IsTable(w.mem, d) && t != d && !Present(w.mem[d][USER_ENTRY])
    ensures var m := Mapped(w.mem, d, CODE_PAGE, t, code, USER_FLAGS);
            && NotKernels(m, w.kernel, t) && IsTable(m, w.kernel) && !Reaches(m, w.home[t := USER_ENTRY], w.kernel, t)
  {
    assert !Present(0);
    var m := Mapped(w.mem, d, CODE_PAGE, t, code, USER_FLAGS);
    assert m[w.kernel] == w.mem[w.kernel];
  }

  /** What the window's table says about the two user pages, and who refers to it. */
  lemma WindowFacts(m: Mem, dirs: set<int>, home: map<int, int>, k: int, d: int, t: int, tab: seq<int>, j: int)
    requires WellFormed(m, dirs, home) && Window(m, home, k, d, t, tab) && NotKernels(m, k, t) && 0 <= j < ENTRIES
    ensures IsTable(m, d) && IsTable(m, k) && Present(m[d][USER_ENTRY])
    ensures UserBit(m[d][USER_ENTRY]) && Base(m[d][USER_ENTRY]) == t
    ensures |tab| == ENTRIES && (CODE_PAGE + j in View(m, d) <==> Present(tab[j]))
    ensures Reaches(m, home, d, t) && !Reaches(m, home, k, t)
    ensures WithUser(m[d][USER_ENTRY]) == m[d][USER_ENTRY] && Store(m, d, USER_ENTRY, m[d][USER_ENTRY]) == m
  {
    FlaggedWord(t, USER_FLAGS);
    ViewMember(m, d, CODE_PAGE + j);
    WindowPages(m, home, k, d, t, tab, CODE_PAGE + j);
    assert m[d][USER_ENTRY := m[d][USER_ENTRY]] == m[d];
  }

  lemma KernelUnreached(m: Mem, m': Mem, home: map<int, int>, k: int, t: int, j: int, x: int)
    requires t in home && home[t] == USER_ENTRY && IsTable(m, t)
    requires 0 <= j < ENTRIES && m' == Store(m, t, j, x) && k != t
    requires NotKernels(m, k, t)
    ensures NotKernels(m', k, t) && !Reaches(m', home, k, t)
  {
  }

  /** After one entry of the window's table was written, everything else is as before. */
  lemma TableWritten(w: World, w': World, d: int, t: int, tab: seq<int>, extra: set<int>, j: int, x: int)
    requires MemOk(w, {d}, extra) && Window(w.mem, w.home, w.kernel, d, t, tab) && NotKernels(w.mem, w.kernel, t)
    requires t in extra && 0 <= j < ENTRIES
    requires w' == w.(mem := Store(w.mem, t, j, x)) && WellFormed(w'.mem, w.dirs, w.home)
    requires IsTable(w.mem, w.kernel) && IsTable(w'.mem, w.kernel) && View(w'.mem, w.kernel) == View(w.mem, w.kernel)
    ensures MemOk(w', {d}, extra) && |tab| == ENTRIES
    ensures Window(w'.mem, w'.home, w.kernel, d, t, tab[j := x]) && NotKernels(w'.mem, w.kernel, t)
  {
    hide View, Reaches, SpacesOk, HeapSeen, Owned, TablesOwned, WellFormed;
    TableIsNotDir(w, {d}, extra, t);
    WriteWindow(w, w', {d}, extra, d, t, tab, j, x);
    KernelUnreached(w.mem, w'.mem, w.home, w.kernel, t, j, x);
  }

  /** A process's directory refers to its own table and not to one that it does not own. */
  lemma OwnTable(w: World, s: int, t: int)
    requires SpacesOk(w) && s in w.spaces && t !in AllFrames(w.spaces)
    ensures IsTable(w.mem, w.spaces[s].dir) && Base(w.mem[w.spaces[s].dir][USER_ENTRY]) != t
  {
    var sp := w.spaces[s];
    assert sp.table in FramesOf(sp) && sp.table in AllFrames(w.spaces);
    FlaggedWord(sp.table, USER_FLAGS);
  }

  /** Growth leaves the kernel's view outside the heap's entry as it was. */
  lemma FixedStays(w: World, w': World, t: int)
    requires WellFormed(w.mem, w.dirs, w.home) && WellFormed(w'.mem, w.dirs, w.home) && w.kernel in w.dirs
    requires OnlyTable(w.mem, w'.mem, t) && t in w.home && w.home[t] == HEAP_ENTRY
    requires IsTable(w.mem, w.kernel) && IsTable(w'.mem, w.kernel) && SameOutsideHeap(View(w.mem, w.kernel), w.fixed)
    ensures SameOutsideHeap(View(w'.mem, w.kernel), w.fixed)
  {
    hide View, Pte, OnlyTable, WellFormed;
    forall p | 0 <= p < PAGES && p / ENTRIES != HEAP_ENTRY
      ensures SameAt(View(w'.mem, w.kernel), w.fixed, p)
    {
      OtherPages(w.mem, w'.mem, w.dirs, w.home, t, w.kernel, p);
      ViewMember(w.mem, w.kernel, p);
      ViewMember(w'.mem, w.kernel, p);
      assert SameAt(View(w.mem, w.kernel), w.fixed, p);
    }
  }

  lemma GrowthTable(w: World, w': World, pending: set<int>, extra: set<int>, t: int)
    requires MemOk(w, pending, extra) && IsTable(w.mem, w.kernel) && t == Base(w.mem[w.kernel][HEAP_ENTRY])
    requires Growth(w.frames, w'.frames, w.free, w'.free, w.mem, w'.mem, t)
    ensures t in w.home && w.home[t] == HEAP_ENTRY && OnlyTable(w.mem, w'.mem, t)
  {
    hide View, Seen, SpacesOk, Owned, TablesOwned;
  }

  /** Windows are as they were after the heap grew. */
  lemma GrowthFacts(w: World, w': World, pending: set<int>, extra: set<int>, t: int)
    requires MemOk(w, pending, extra) && IsTable(w.mem, w.kernel) && t == Base(w.mem[w.kernel][HEAP_ENTRY])
    requires w' == w.(mem := w'.mem, free := w'.free, frames := w'.frames, end := w'.end) && MemOk(w', pending, extra)
    requires Growth(w.frames, w'.frames, w.free, w'.free, w.mem, w'.mem, t)
    ensures forall d, u, tab :: Window(w.mem, w.home, w.kernel, d, u, tab) && d in w.dirs ==>
              Window(w'.mem, w'.home, w.kernel, d, u, tab)
    ensures forall d :: Empty(w.mem, w.kernel, d) && d in w.dirs ==> Empty(w'.mem, w.kernel, d)
    ensures forall u :: NotKernels(w.mem, w.kernel, u) ==> NotKernels(w'.mem, w.kernel, u)
  {
    hide View, Seen, SpacesOk, Owned, TablesOwned;
    GrowthTable(w, w', pending, extra, t);
    HeapStep(w, w', pending, extra, t);
  }
}
