/** The process table: entries, their identifiers, and how they tie to tasks and address spaces. */
module ProcSpec {
  import opened Words
  import opened HeapSpec
  import opened SchedSpec
  import opened KernelSpec

  const KERNEL_MASK: bv32 := 0xFFFF_FFFF
  /** Calls 0 to 7, 9 to 11 and 13 to 19: everything but writing files (8) and spawning (12). */
  const USER_MASK: bv32 := 0x000F_EEFF

  datatype Proc = Proc(active: bool, pid: int, tid: int, cr3: int, code: int, stack: int, entry: u32,
                       mask: bv32, isKernel: bool)

  const NO_PROC := Proc(false, 0, 0, 0, 0, 0, 0, 0, false)

  /** One active entry: a kernel process, or a user process with its address space. */
  ghost predicate EntryOk(s: int, p: Proc, spaces: map<int, Space>, states: seq<State>, k: int)
    requires |states| == MAX_TASKS
  {
    && 0 < p.pid < U32_LIMIT
    && (if s == 0 then p.tid == 0 && p.isKernel else 1 <= p.tid < MAX_TASKS && states[p.tid] != Unused)
    && (if p.isKernel then s !in spaces && p.cr3 == k && p.code == 0 && p.stack == 0 && p.mask == KERNEL_MASK
        else && s in spaces && p.cr3 == spaces[s].dir && p.code == spaces[s].code && p.stack == spaces[s].stack
             && p.mask == USER_MASK)
  }

  ghost predicate PidsDistinct(procs: seq<Proc>) {
    forall s, t :: 0 <= s < t < |procs| && procs[s].active && procs[t].active ==> procs[s].pid != procs[t].pid
  }

  ghost predicate TidsDistinct(procs: seq<Proc>) {
    forall s, t :: 0 <= s < t < |procs| && procs[s].active && procs[t].active ==> procs[s].tid != procs[t].tid
  }

  /** Everything but the last of the table's properties: that no two processes share a task. */
  ghost predicate TableShape(procs: seq<Proc>, spaces: map<int, Space>, states: seq<State>, k: int) {
    && |procs| == MAX_PROCESSES && |states| == MAX_TASKS
    && procs[0].active
    && (forall s :: 0 <= s < |procs| && procs[s].active ==> EntryOk(s, procs[s], spaces, states, k))
    && (forall s :: s in spaces ==> 0 <= s < |procs| && procs[s].active)
    && PidsDistinct(procs)
  }

  ghost predicate ProcsOk(procs: seq<Proc>, spaces: map<int, Space>, states: seq<State>, k: int) {
    TableShape(procs, spaces, states, k) && TidsDistinct(procs)
  }

  ghost predicate HasProcess(procs: seq<Proc>, tid: int) {
    exists s :: 0 <= s < |procs| && procs[s].active && procs[s].tid == tid
  }

  /** Every task but task 0 belongs to a process. */
  ghost predicate CoveredBy(procs: seq<Proc>, states: seq<State>) {
    forall t :: 1 <= t < |states| && states[t] != Unused ==> HasProcess(procs, t)
  }

  ghost predicate NoneZombie(states: seq<State>) {
    forall t :: 0 <= t < |states| ==> states[t] != Zombie
  }

  /** `dir` is the directory of the process that owns the task, the kernel's if there is none. */
  ghost predicate Loaded(procs: seq<Proc>, tid: int, k: int, dir: int) {
    && (forall s :: 0 <= s < |procs| && procs[s].active && procs[s].tid == tid ==> dir == procs[s].cr3)
    && ((forall s :: 0 <= s < |procs| && procs[s].active ==> procs[s].tid != tid) ==> dir == k)
  }

  /** Every task but task 0 has a stack of its own, a live allocation; vacant slots have none. */
  ghost predicate StacksOk(stacks: map<int, Block>, stackOf: seq<int>, states: seq<State>, live: set<Block>) {
    && |stackOf| == MAX_TASKS && |states| == MAX_TASKS && stackOf[0] == 0 && 0 !in stacks
    && (forall t :: 1 <= t < MAX_TASKS ==>
          if states[t] == Unused then t !in stacks && stackOf[t] == 0
          else t in stacks && stacks[t] in live && stackOf[t] == Payload(stacks[t]) && stacks[t].size >= 8192)
    && (forall t :: t in stacks ==> 1 <= t < MAX_TASKS)
    && (forall t, u :: t in stacks && u in stacks && t != u ==> stacks[t] != stacks[u])
  }

  // Adding and removing entries

  lemma AddEntry(procs: seq<Proc>, spaces: map<int, Space>, spaces': map<int, Space>, states: seq<State>,
                 k: int, s: int, p: Proc)
    requires TableShape(procs, spaces, states, k) && 0 <= s < |procs| && !procs[s].active && p.active
    requires (forall t :: t != s ==> (t in spaces' <==> t in spaces) && (t in spaces ==> spaces'[t] == spaces[t]))
    requires EntryOk(s, p, spaces', states, k) && s !in spaces
    requires forall t :: 0 <= t < |procs| && procs[t].active ==> procs[t].pid != p.pid
    ensures TableShape(procs[s := p], spaces', states, k)
  {
  }

  lemma RemoveEntry(procs: seq<Proc>, spaces: map<int, Space>, states: seq<State>, k: int, s: int)
    requires ProcsOk(procs, spaces, states, k) && 1 <= s < |procs|
    ensures ProcsOk(procs[s := NO_PROC], spaces - {s}, states, k)
  {
    var procs', spaces' := procs[s := NO_PROC], spaces - {s};
    forall t | 0 <= t < |procs'| && procs'[t].active
      ensures EntryOk(t, procs'[t], spaces', states, k)
    {
      assert t != s && procs'[t] == procs[t];
    }
  }

  /** Two active entries share a task exactly when the new entry's task already had one. */
  lemma SharedTask(procs: seq<Proc>, s: int, p: Proc)
    requires TidsDistinct(procs) && 0 <= s < |procs| && !procs[s].active && p.active
    ensures TidsDistinct(procs[s := p]) <==> !HasProcess(procs, p.tid)
  {
    var procs' := procs[s := p];
    if TidsDistinct(procs') {
      forall t | 0 <= t < |procs| && procs[t].active
        ensures procs[t].tid != p.tid
      {
        assert t != s && procs'[t] == procs[t] && procs'[s] == p;
      }
    }
  }

  // Process identifiers

  const PIDS := 0xFFFF_FFFE

  /** The `j`th candidate after `start`, going round the identifiers from 2 up. */
  function Candidate(start: int, j: int): (pid: int)
    requires 2 <= start < U32_LIMIT && j >= 0
    ensures 2 <= pid < U32_LIMIT
  {
    2 + (start - 2 + j) % PIDS
  }

  function FirstPid(next: int): (pid: int)
    ensures next < U32_LIMIT ==> 2 <= pid < U32_LIMIT
  {
    if next < 2 then 2 else next
  }

  ghost function UsedPids(procs: seq<Proc>): set<int> {
    if procs == [] then {}
    else UsedPids(procs[..|procs| - 1]) + if procs[|procs| - 1].active then {procs[|procs| - 1].pid} else {}
  }

  lemma {:induction false} UsedPidsCount(procs: seq<Proc>)
    ensures |UsedPids(procs)| <= |procs|
  {
    if procs != [] {
      UsedPidsCount(procs[..|procs| - 1]);
    }
  }

  lemma {:induction false} UsedPidsHas(procs: seq<Proc>, s: int)
    requires 0 <= s < |procs| && procs[s].active
    ensures procs[s].pid in UsedPids(procs)
  {
    if s < |procs| - 1 {
      UsedPidsHas(procs[..|procs| - 1], s);
    }
  }

  lemma CandidatesDiffer(start: int, i: int, j: int)
    requires 2 <= start < U32_LIMIT && 0 <= i < j <= 33
    ensures Candidate(start, i) != Candidate(start, j)
  {
    var a, b := (start - 2 + i) % PIDS, (start - 2 + j) % PIDS;
    if start - 2 + j < PIDS {
    } else if start - 2 + i >= PIDS {
    } else {
      assert b == start - 2 + j - PIDS;
    }
  }

  ghost function Tried(start: int, j: nat): (r: set<int>)
    requires 2 <= start < U32_LIMIT && j <= 33
  {
    if j == 0 then {} else Tried(start, j - 1) + {Candidate(start, j - 1)}
  }

  lemma TriedSteps(start: int)
    requires 2 <= start < U32_LIMIT
    ensures Tried(start, 0) == {}
    ensures forall j :: 0 <= j < 33 ==> Tried(start, j + 1) == Tried(start, j) + {Candidate(start, j)}
  {
  }

  lemma {:induction false} TriedFacts(start: int, j: nat, c: nat)
    requires 2 <= start < U32_LIMIT && j <= c <= 33
    ensures |Tried(start, j)| == j && (j <= c ==> Candidate(start, c) !in Tried(start, j))
  {
    if j > 0 {
      TriedFacts(start, j - 1, c);
      TriedFacts(start, j - 1, j - 1);
      CandidatesDiffer(start, j - 1, c);
    }
  }

  lemma {:induction false} TriedHas(start: int, i: nat, j: nat)
    requires 2 <= start < U32_LIMIT && i < j <= 33
    ensures Candidate(start, i) in Tried(start, j)
  {
    if i < j - 1 {
      TriedHas(start, i, j - 1);
    }
  }

  lemma {:induction false} UsedPidsOnly(procs: seq<Proc>, pid: int)
    requires forall s :: 0 <= s < |procs| && procs[s].active ==> procs[s].pid != pid
    ensures pid !in UsedPids(procs)
  {
    if procs != [] {
      UsedPidsOnly(procs[..|procs| - 1], pid);
    }
  }

  /** The number of candidates from the `j`th on that are in use, up to the first that is not. */
  ghost function FirstFree(start: int, used: set<int>, j: nat): (i: nat)
    requires 2 <= start < U32_LIMIT && j <= 33
    decreases 33 - j
  {
    if j == 33 || Candidate(start, j) !in used then j else FirstFree(start, used, j + 1)
  }

  /** The identifier that the next process gets. */
  ghost function NextPid(procs: seq<Proc>, next: u32): (pid: u32)
    ensures 2 <= pid
  {
    Candidate(FirstPid(next), FirstFree(FirstPid(next), UsedPids(procs), 0))
  }

  /** The counter once that identifier was given out. */
  function PidAfter(pid: u32): (next: u32) {
    FirstPid(Wrap32(pid + 1))
  }

  lemma {:induction false} FirstFreeIs(start: int, used: set<int>, i: nat, j: nat)
    requires 2 <= start < U32_LIMIT && i <= j < 33 && Tried(start, j) <= used && Candidate(start, j) !in used
    ensures FirstFree(start, used, i) == j
    decreases j - i
  {
    if i < j {
      TriedHas(start, i, j);
      FirstFreeIs(start, used, i + 1, j);
    }
  }

  /**
   Said without counting tries: the least identifier from the counter up that no active process has, and if there is
   none up to the last, the least from 2 on.
   */
  lemma NextPidLeast(procs: seq<Proc>, next: u32)
    requires |procs| <= 32
    ensures var pid, from := NextPid(procs, next), if next < 2 then 2 else next;
            && pid !in UsedPids(procs)
            && if pid >= from then forall q :: from <= q < pid ==> q in UsedPids(procs)
               else && (forall q :: from <= q <= U32_MAX ==> q in UsedPids(procs))
                    && forall q :: 2 <= q < pid ==> q in UsedPids(procs)
  {
    hide UsedPids, FirstFree, Tried;
    var from, used := FirstPid(next), UsedPids(procs);
    UsedPidsCount(procs);
    TriedSteps(from);
    FirstFreeFound(from, used, 0);
    RunOfUsed(from, used, FirstFree(from, used, 0));
  }

  lemma RunOfUsed(from: int, used: set<int>, j: nat)
    requires 2 <= from < U32_LIMIT && j < 33 && forall k :: 0 <= k < j ==> Candidate(from, k) in used
    ensures var pid := Candidate(from, j);
            if pid >= from then forall q :: from <= q < pid ==> q in used
            else (forall q :: from <= q <= U32_MAX ==> q in used) && forall q :: 2 <= q < pid ==> q in used
  {
    hide Candidate;
    CandidateIs(from, j);
    forall q | from <= q < from + j && q <= U32_MAX
      ensures q in used
    {
      CandidateIs(from, q - from);
    }
    forall q | 2 <= q < 2 + (from + j - U32_LIMIT)
      ensures q in used
    {
      CandidateIs(from, q - 2 + (U32_LIMIT - from));
    }
  }

  lemma CandidateIs(start: int, j: nat)
    requires 2 <= start < U32_LIMIT && j <= 33
    ensures Candidate(start, j) == if start + j < U32_LIMIT then start + j else 2 + (start + j - U32_LIMIT)
  {
  }

  /** Among 33 candidates one is free; those before the first free one are in use. */
  lemma {:induction false} FirstFreeFound(start: int, used: set<int>, j: nat)
    requires 2 <= start < U32_LIMIT && |used| <= 32 && j <= 33 && Tried(start, j) <= used
    ensures var i := FirstFree(start, used, j);
            j <= i < 33 && Candidate(start, i) !in used && forall k :: j <= k < i ==> Candidate(start, k) in used
    decreases 33 - j
  {
    hide Candidate;
    if j == 33 {
      TriedFacts(start, 33, 33);
      SmallerSet(Tried(start, 33), used);
      assert false;
    } else if Candidate(start, j) in used {
      FirstFreeFound(start, used, j + 1);
    }
  }

  /** What the caller of a spawn is told: the identifier as a signed integer, or -1. */
  ghost function SpawnReply(created: bool, procs: seq<Proc>, next: u32): (reply: int)
    ensures reply >= 0 <==> created && NextPid(procs, next) < 0x8000_0000
    ensures created ==> (reply == -1 <==> NextPid(procs, next) == U32_MAX)
  {
    if created then Signed32(NextPid(procs, next)) else -1
  }

  /** The first identifier whose process is reported as a failure. */
  lemma NegativeExample(procs: seq<Proc>)
    requires forall s :: 0 <= s < |procs| && procs[s].active ==> procs[s].pid != 0x8000_0000
    ensures NextPid(procs, 0x8000_0000) == 0x8000_0000 && SpawnReply(true, procs, 0x8000_0000) == -0x8000_0000
  {
    UsedPidsOnly(procs, 0x8000_0000);
    FirstFreeIs(0x8000_0000, UsedPids(procs), 0, 0);
  }
}
