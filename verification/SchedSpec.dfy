/**
 The round-robin scheduler as a state machine: sixteen task slots, one of them current, and
 the steps that switch, exit, create and reap tasks.
 */
module SchedSpec {

  const MAX_TASKS := 16

  datatype State = Unused | Runnable | Running | Zombie

  datatype Sched = Sched(states: seq<State>, cur: int)

  /** The slot `i` places after the current one, going round. */
  function Slot(cur: int, i: int): (r: int)
    ensures 0 <= r < MAX_TASKS
  {
    (cur + i) % MAX_TASKS
  }

  /** The slots passed when counting up from the current one to a slot, past the last one on from 0. */
  function Distance(cur: int, slot: int): (r: int) {
    if slot >= cur then slot - cur else MAX_TASKS - cur + slot
  }

  ghost predicate Shape(s: Sched) {
    |s.states| == MAX_TASKS && 0 <= s.cur < MAX_TASKS
  }

  /** Exactly the current task is running, and task 0 is alive. */
  ghost predicate Valid(s: Sched) {
    && Shape(s)
    && (forall i :: 0 <= i < MAX_TASKS ==> (s.states[i] == Running <==> i == s.cur))
    && (s.states[0] == Runnable || s.states[0] == Running)
  }

  /** `t` is the least runnable slot above the current one, if there is one there; else the least runnable slot. */
  ghost predicate IsNext(s: Sched, t: int)
    requires Shape(s)
  {
    && 0 <= t < MAX_TASKS && t != s.cur && s.states[t] == Runnable
    && if exists j :: s.cur < j < MAX_TASKS && s.states[j] == Runnable
       then s.cur < t && forall j :: s.cur < j < t ==> s.states[j] != Runnable
       else forall j :: 0 <= j < t ==> s.states[j] != Runnable
  }

  ghost predicate NoneRunnable(s: Sched)
    requires Shape(s)
  {
    forall j :: 0 <= j < MAX_TASKS && j != s.cur ==> s.states[j] != Runnable
  }

  ghost predicate Switch(s: Sched, s': Sched, left: State)
    requires Shape(s)
  {
    && 0 <= s'.cur < MAX_TASKS && IsNext(s.(states := s.states[s.cur := left]), s'.cur)
    && s'.states == s.states[s.cur := left][s'.cur := Running]
  }

  /** Another runnable task takes over; without one the current task goes on. */
  ghost predicate Yields(s: Sched, s': Sched)
    requires Shape(s)
  {
    if NoneRunnable(s) then s' == s else Switch(s, s', Runnable)
  }

  /** The current task becomes a zombie and another takes over; task 0 cannot exit. */
  ghost predicate Exits(s: Sched, s': Sched)
    requires Shape(s)
  {
    if s.cur == 0 then s' == s else Switch(s, s', Zombie)
  }

  predicate Vacant(st: State) { st == Unused || st == Zombie }

  /** Slot `t` is the first vacant slot other than 0. */
  ghost predicate IsVacancy(s: Sched, t: int)
    requires Shape(s)
  {
    && 1 <= t < MAX_TASKS && Vacant(s.states[t])
    && forall j :: 1 <= j < t ==> !Vacant(s.states[j])
  }

  /** What happens to the scheduler: any number of zombies may be reaped at once, and some steps leave it alone. */
  datatype Event = Yield | Exit | Create(slot: int) | Reap(slots: set<int>) | Idle

  function Cleared(states: seq<State>, slots: set<int>): (r: seq<State>)
    ensures |r| == |states| && forall i :: 0 <= i < |r| ==> r[i] == if i in slots then Unused else states[i]
  {
    seq(|states|, i requires 0 <= i < |states| => if i in slots then Unused else states[i])
  }

  ghost predicate Step(s: Sched, e: Event, s': Sched)
    requires Shape(s)
  {
    match e
    case Yield => Yields(s, s')
    case Exit => Exits(s, s')
    case Create(t) => IsVacancy(s, t) && s' == s.(states := s.states[t := Runnable])
    case Reap(ts) =>
      && (forall t :: t in ts ==> 1 <= t < MAX_TASKS && s.states[t] == Zombie)
      && s' == s.(states := Cleared(s.states, ts))
    case Idle => s' == s
  }

  /** A run: the states visited, one more than the events. */
  ghost predicate Run(run: seq<Sched>, events: seq<Event>) {
    && |run| == |events| + 1
    && (forall i :: 0 <= i < |run| ==> Shape(run[i]))
    && forall i :: 0 <= i < |events| ==> Step(run[i], events[i], run[i + 1])
  }

  // Safety

  lemma DistanceOf(cur: int, t: int)
    requires 0 <= cur < MAX_TASKS && 0 <= t < MAX_TASKS
    ensures t != cur ==> 1 <= Distance(cur, t)
    ensures Slot(cur, Distance(cur, t)) == t
  {
  }

  /** Every step keeps the invariant: one running task, the current one, and task 0 alive. */
  lemma StepKeeps(s: Sched, e: Event, s': Sched)
    requires Valid(s) && Step(s, e, s')
    ensures Valid(s')
  {
  }

  /** An exiting task always finds a successor. */
  lemma ExitHasSuccessor(s: Sched)
    requires Valid(s) && s.cur != 0
    ensures s.states[0] == Runnable && !NoneRunnable(s.(states := s.states[s.cur := Zombie]))
  {
    var t := s.(states := s.states[s.cur := Zombie]);
    assert t.states[0] == Runnable;
  }

  lemma {:induction false} RunKeeps(run: seq<Sched>, events: seq<Event>, k: int)
    requires Run(run, events) && Valid(run[0]) && 0 <= k < |run|
    ensures Valid(run[k])
  {
    if k > 0 {
      RunKeeps(run, events, k - 1);
      assert Step(run[k - 1], events[k - 1], run[k - 1 + 1]);
      StepKeeps(run[k - 1], events[k - 1], run[k]);
    }
  }

  /** A zombie does not run again unless its slot is given to a new task. */
  lemma {:induction false} ZombieStays(run: seq<Sched>, events: seq<Event>, z: int, k: int)
    requires Run(run, events) && Valid(run[0]) && 0 <= k < |run|
    requires 0 <= z < MAX_TASKS && run[0].states[z] == Zombie
    requires forall i :: 0 <= i < k ==> events[i] != Create(z)
    ensures Vacant(run[k].states[z]) && run[k].cur != z
  {
    RunKeeps(run, events, k);
    if k > 0 {
      ZombieStays(run, events, z, k - 1);
      RunKeeps(run, events, k - 1);
      assert Step(run[k - 1], events[k - 1], run[k - 1 + 1]);
    }
  }

  // Bounded waiting

  /** A switch moves the current slot closer to any task that keeps waiting. */
  lemma SwitchCloser(cur: int, cur': int, w: int)
    requires 0 <= cur < MAX_TASKS && 0 <= cur' < MAX_TASKS && 0 <= w < MAX_TASKS
    requires 1 <= Distance(cur, cur') < Distance(cur, w)
    ensures Distance(cur', w) == Distance(cur, w) - Distance(cur, cur')
  {
  }

  /** One step, for a waiting task: it keeps waiting, never moves away, and a switch brings it closer or picks it. */
  lemma WaitStep(s: Sched, e: Event, s': Sched, w: int)
    requires Valid(s) && Step(s, e, s') && 0 <= w < MAX_TASKS && s.states[w] == Runnable
    ensures s'.cur == w || s'.states[w] == Runnable
    ensures s'.cur != w ==>
              Distance(s'.cur, w) <= Distance(s.cur, w) - (if s'.cur != s.cur then 1 else 0)
  {
    assert w != s.cur;
    if s'.cur != s.cur && s'.cur != w {
      var left := if e == Yield then Runnable else Zombie;
      var t := s.(states := s.states[s.cur := left]);
      assert IsNext(t, s'.cur);
      assert t.states[w] == Runnable;
      DistanceOf(s.cur, s'.cur);
      DistinctDistance(s.cur, s'.cur, w);
      SwitchCloser(s.cur, s'.cur, w);
    }
  }

  lemma DistinctDistance(cur: int, a: int, b: int)
    requires 0 <= cur < MAX_TASKS && 0 <= a < MAX_TASKS && 0 <= b < MAX_TASKS && a != b
    ensures Distance(cur, a) != Distance(cur, b)
  {
    DistanceOf(cur, a);
    DistanceOf(cur, b);
  }

  /** The number of context switches in a run. */
  function Switches(run: seq<Sched>): (n: nat) {
    if |run| < 2 then 0
    else Switches(run[..|run| - 1]) + if run[|run| - 1].cur != run[|run| - 2].cur then 1 else 0
  }

  /**
   Bounded waiting: after as many switches as there are slots to pass when counting up to a runnable task, and so
   after MAX_TASKS - 1 switches at the latest, the task has been current, whatever happened between.
   */
  lemma BoundedWaiting(run: seq<Sched>, events: seq<Event>, w: int)
    requires Run(run, events) && Valid(run[0]) && 0 <= w < MAX_TASKS && run[0].states[w] == Runnable
    requires Switches(run) >= if w >= run[0].cur then w - run[0].cur else MAX_TASKS - run[0].cur + w
    ensures exists k :: 0 <= k < |run| && run[k].cur == w
  {
    if forall k :: 0 <= k < |run| ==> run[k].cur != w {
      StillWaiting(run, events, w, |run| - 1);
      assert run[..|run|] == run;
      RunKeeps(run, events, |run| - 1);
      DistanceOf(run[|run| - 1].cur, w);
    }
  }

  lemma {:induction false} StillWaiting(run: seq<Sched>, events: seq<Event>, w: int, k: int)
    requires Run(run, events) && Valid(run[0]) && 0 <= w < MAX_TASKS && run[0].states[w] == Runnable
    requires 0 <= k < |run| && forall i :: 0 <= i < |run| ==> run[i].cur != w
    ensures run[k].states[w] == Runnable
    ensures Distance(run[k].cur, w) <= Distance(run[0].cur, w) - Switches(run[..k + 1])
  {
    if k > 0 {
      StillWaiting(run, events, w, k - 1);
      RunKeeps(run, events, k - 1);
      assert Step(run[k - 1], events[k - 1], run[k - 1 + 1]);
      WaitStep(run[k - 1], events[k - 1], run[k], w);
      assert run[..k + 1][..k] == run[..k];
    }
  }
}
