/** The round-robin scheduler between lock acquisitions: what adding a task, starting
    the first task and yielding do to the task table, and how long a task can wait. */
module Sched {

  const MAX_TASKS := 8

  /** Task pointers; 0 is null. */
  type Task = nat

  /** `index` is current_task_index, -1 before the first task is chosen. */
  datatype Table = Table(tasks: seq<Task>, index: int, current: Task)

  datatype Event = Add(task: Task) | Schedule | Yield

  ghost predicate TableInv(s: Table) {
    && |s.tasks| <= MAX_TASKS
    && (forall i :: 0 <= i < |s.tasks| ==> s.tasks[i] != 0)
    && (s.current == 0 ==> s.index == -1)
    && (s.current != 0 ==> 0 <= s.index < |s.tasks| && s.current == s.tasks[s.index])
  }

  /** C's remainder of index + 1 by the number of tasks; index is at least -1. */
  function NextIndex(index: int, n: nat): int
    requires n > 0
  {
    (index + 1) % n
  }

  /** One completed critical section. Scheduling with a current task only releases the
      lock; the yield that follows is a critical section of its own. */
  function Apply(s: Table, e: Event): Table {
    match e
    case Add(task) => if |s.tasks| >= MAX_TASKS then s else Table(s.tasks + [task], s.index, s.current)
    case Schedule => if |s.tasks| == 0 || s.current != 0 then s else Table(s.tasks, 0, s.tasks[0])
    case Yield =>
      if |s.tasks| <= 1 then s
      else
        var i := NextIndex(s.index, |s.tasks|);
        Table(s.tasks, i, s.tasks[i])
  }

  predicate Proper(e: Event) { e.Add? ==> e.task != 0 }

  lemma ApplyInv(s: Table, e: Event)
    requires TableInv(s) && Proper(e)
    ensures TableInv(Apply(s, e))
    ensures s.tasks <= Apply(s, e).tasks
  {
  }

  function Run(s: Table, es: seq<Event>): Table
    decreases |es|
  {
    if es == [] then s else Run(Apply(s, es[0]), es[1..])
  }

  lemma {:induction false} RunInv(s: Table, es: seq<Event>)
    requires TableInv(s) && forall i :: 0 <= i < |es| ==> Proper(es[i])
    ensures TableInv(Run(s, es)) && s.tasks <= Run(s, es).tasks
    decreases |es|
  {
    if es != [] {
      ApplyInv(s, es[0]);
      RunInv(Apply(s, es[0]), es[1..]);
    }
  }

  // ---------------------------------------------------------------- bounded waiting

  /** An upper bound on the yields until slot t is current, whatever is added meanwhile. */
  function Distance(index: int, t: nat): int {
    if t >= index then t - index else MAX_TASKS - index + t
  }

  function Yields(es: seq<Event>): nat {
    if es == [] then 0 else Yields(es[1..]) + if es[0].Yield? then 1 else 0
  }

  lemma DistanceBound(s: Table, t: nat)
    requires TableInv(s) && s.current != 0 && t < |s.tasks|
    ensures 0 <= Distance(s.index, t) <= MAX_TASKS - 1
    ensures Distance(s.index, t) == 0 <==> s.index == t
  {
  }

  lemma DistanceStep(s: Table, e: Event, t: nat)
    requires TableInv(s) && Proper(e) && s.current != 0 && t < |s.tasks| && s.index != t
    ensures Apply(s, e).current != 0
    ensures Distance(Apply(s, e).index, t) <= Distance(s.index, t) - if e.Yield? then 1 else 0
  {
  }

  /** Every listed task becomes current within MAX_TASKS - 1 yields, even when tasks are
      added in between. The result is how many events that takes. */
  lemma {:induction false} BoundedWaiting(s: Table, es: seq<Event>, t: nat) returns (j: nat)
    requires TableInv(s) && s.current != 0 && t < |s.tasks|
    requires forall i :: 0 <= i < |es| ==> Proper(es[i])
    requires Yields(es) >= MAX_TASKS - 1 || Yields(es) >= Distance(s.index, t)
    ensures j <= |es| && Run(s, es[..j]).index == t && Run(s, es[..j]).current == s.tasks[t]
    decreases |es|
  {
    DistanceBound(s, t);
    if s.index == t {
      j := 0;
    } else {
      DistanceStep(s, es[0], t);
      ApplyInv(s, es[0]);
      var i := BoundedWaiting(Apply(s, es[0]), es[1..], t);
      j := i + 1;
      assert es[..j][1..] == es[1..][..i];
    }
  }

  /** A task added to a table with room is listed, and becomes current within
      MAX_TASKS - 1 further yields. */
  lemma AddedTaskRuns(s: Table, task: Task, es: seq<Event>) returns (j: nat)
    requires TableInv(s) && s.current != 0 && task != 0 && |s.tasks| < MAX_TASKS
    requires (forall i :: 0 <= i < |es| ==> Proper(es[i])) && Yields(es) >= MAX_TASKS - 1
    ensures j <= |es| && Run(Apply(s, Add(task)), es[..j]).current == task
  {
    ApplyInv(s, Add(task));
    j := BoundedWaiting(Apply(s, Add(task)), es, |s.tasks|);
  }

  // ---------------------------------------------------------------- what the operations do

  /** The first schedule makes the first task of the list current. */
  lemma ScheduleIs(s: Table)
    requires TableInv(s)
    ensures s.current == 0 && |s.tasks| > 0 ==> Apply(s, Schedule) == Table(s.tasks, 0, s.tasks[0])
    ensures s.current != 0 || |s.tasks| == 0 ==> Apply(s, Schedule) == s
  {
  }

  /** A yield among several tasks makes the one after the current one current, and the first
      one after the last; a task on its own goes on. */
  lemma YieldIs(s: Table)
    requires TableInv(s)
    ensures |s.tasks| <= 1 ==> Apply(s, Yield) == s
    ensures |s.tasks| > 1 ==>
            var i := if s.index + 1 == |s.tasks| then 0 else s.index + 1;
            0 <= i < |s.tasks| && Apply(s, Yield) == Table(s.tasks, i, s.tasks[i])
  {
  }

  // ---------------------------------------------------------------- starting

  function Adds(es: seq<Event>): nat {
    if es == [] then 0 else Adds(es[..|es| - 1]) + if es[|es| - 1].Add? then 1 else 0
  }

  lemma {:induction false} RunAppend(s: Table, a: seq<Event>, b: seq<Event>)
    ensures Run(s, a + b) == Run(Run(s, a), b)
    decreases |a|
  {
    if a == [] {
      assert a + b == b;
    } else {
      assert (a + b)[1..] == a[1..] + b;
      RunAppend(Apply(s, a[0]), a[1..], b);
    }
  }

  lemma OneEvent(s: Table, e: Event)
    ensures Run(s, [e]) == Apply(s, e)
  {
    assert [e][1..] == [];
  }

  /** Event j chooses a task: it schedules after an addition or yields after two. */
  predicate Chooses(es: seq<Event>, j: nat)
    requires j < |es|
  {
    (es[j].Schedule? && Adds(es[..j]) >= 1) || (es[j].Yield? && Adds(es[..j]) >= 2)
  }

  /** From the empty table a run leaves a current task exactly when it schedules after an
      addition or yields after two additions; then there is one ever after. */
  lemma {:induction false} CurrentIff(es: seq<Event>)
    requires forall i :: 0 <= i < |es| ==> Proper(es[i])
    ensures var s := Run(Table([], -1, 0), es);
            && TableInv(s) && |s.tasks| == (if Adds(es) < MAX_TASKS then Adds(es) else MAX_TASKS)
            && (s.current != 0 <==> exists j: nat :: j < |es| && Chooses(es, j))
    decreases |es|
  {
    if es != [] {
      var front, last := es[..|es| - 1], es[|es| - 1];
      CurrentIff(front);
      assert front + [last] == es;
      RunAppend(Table([], -1, 0), front, [last]);
      OneEvent(Run(Table([], -1, 0), front), last);
      ApplyInv(Run(Table([], -1, 0), front), last);
      forall j: nat | j < |front| ensures Chooses(es, j) == Chooses(front, j) {
        assert es[..j] == front[..j];
      }
      assert Chooses(es, |front|) <==> (last.Schedule? && Adds(front) >= 1) || (last.Yield? && Adds(front) >= 2);
    }
  }

  // ---------------------------------------------------------------- rotation

  function YieldTimes(s: Table, k: nat): Table {
    if k == 0 then s else Apply(YieldTimes(s, k - 1), Yield)
  }

  /** Where the k-th yield of a round arrives. */
  function Around(i: int, n: nat, k: nat): int { if i + k < n then i + k else i + k - n }

  lemma YieldIndex(s: Table)
    requires TableInv(s) && s.current != 0
    ensures Apply(s, Yield).tasks == s.tasks && Apply(s, Yield).current != 0
    ensures Apply(s, Yield).index == if s.index + 1 < |s.tasks| then s.index + 1 else 0
  {
  }

  lemma {:induction false} YieldTimesIndex(s: Table, k: nat)
    requires TableInv(s) && s.current != 0 && k <= |s.tasks|
    ensures TableInv(YieldTimes(s, k)) && YieldTimes(s, k).tasks == s.tasks && YieldTimes(s, k).current != 0
    ensures YieldTimes(s, k).index == Around(s.index, |s.tasks|, k)
  {
    hide Apply;
    if k > 0 {
      YieldTimesIndex(s, k - 1);
      ApplyInv(YieldTimes(s, k - 1), Yield);
      YieldIndex(YieldTimes(s, k - 1));
    }
  }

  /** Of n consecutive yields among n tasks, exactly one makes task t current. */
  lemma EachOnce(s: Table, t: nat) returns (k: nat)
    requires TableInv(s) && s.current != 0 && t < |s.tasks|
    ensures 1 <= k <= |s.tasks| && YieldTimes(s, k).current == s.tasks[t] && YieldTimes(s, k).index == t
    ensures forall j: nat :: 1 <= j <= |s.tasks| && YieldTimes(s, j).index == t ==> j == k
  {
    var n := |s.tasks|;
    k := if t > s.index then t - s.index else n - s.index + t;
    YieldTimesIndex(s, k);
    forall j: nat | 1 <= j <= n && YieldTimes(s, j).index == t ensures j == k {
      YieldTimesIndex(s, j);
    }
  }

  // ---------------------------------------------------------------- the code

  /** The static variables of the scheduler, changed inside its critical sections. */
  class Scheduler {
    const taskList: array<Task>
    var numTasks: nat
    var currentIndex: int
    var current: Task

    ghost predicate Valid()
      reads this, taskList
    {
      taskList.Length == MAX_TASKS && numTasks <= MAX_TASKS && TableInv(State())
    }

    ghost function State(): Table
      requires numTasks <= taskList.Length
      reads this, taskList
    {
      Table(taskList[..numTasks], currentIndex, current)
    }

    constructor Init()
      ensures Valid() && State() == Table([], -1, 0) && fresh(taskList)
    {
      taskList := new Task[MAX_TASKS](_ => 0);
      numTasks, currentIndex, current := 0, -1, 0;
    }

    method AddTask(task: Task)
      requires Valid() && task != 0
      modifies this, taskList
      ensures Valid() && State() == Apply(old(State()), Event.Add(task))
    {
      if numTasks >= MAX_TASKS {
        return;
      }
      taskList[numTasks] := task;
      numTasks := numTasks + 1;
      assert taskList[..numTasks] == old(taskList[..numTasks]) + [task];
    }

    /** The first part of sched_schedule; true when it goes on to yield. */
    method ScheduleFirst() returns (goOn: bool)
      requires Valid()
      modifies this
      ensures Valid() && State() == Apply(old(State()), Event.Schedule)
      ensures goOn <==> old(numTasks) > 0 && old(current) != 0
    {
      if numTasks == 0 {
        return false;
      }
      if current == 0 {
        currentIndex := 0;
        current := taskList[currentIndex];
        goOn := false;
      } else {
        goOn := true;
      }
    }

    method YieldNow()
      requires Valid()
      modifies this
      ensures Valid() && State() == Apply(old(State()), Event.Yield)
    {
      if numTasks <= 1 {
        return;
      }
      currentIndex := (currentIndex + 1) % numTasks;
      current := taskList[currentIndex];
    }

    method ScheduleTasks()
      requires Valid()
      modifies this
      ensures Valid()
      ensures State() == (var s := Apply(old(State()), Event.Schedule);
                          if old(numTasks) > 0 && old(current) != 0 then Apply(s, Event.Yield) else s)
    {
      var goOn := ScheduleFirst();
      if goOn {
        YieldNow();
      }
    }
  }
}
