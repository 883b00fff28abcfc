/**
  The task scheduler: a list of tasks behind a lock, a tick that spawns one detached execution per
  task and drops the one-shot tasks whose time has come, and executions that look at the clock again
  by themselves, at any later moment.
 */
module Scheduling {
  /** A moment in milliseconds, or a cron schedule. */
  datatype ProcessTime = Datetime(at: int) | Crontab(cron: nat)

  /** Whether a cron schedule includes a moment; nothing is assumed about it. */
  type Includes = (nat, int) -> bool

  datatype Task = Task(id: string, time: ProcessTime, isAsync: bool, action: nat)

  function IsActive(time: ProcessTime, now: int, includes: Includes): bool {
    match time
    case Datetime(at) => at <= now
    case Crontab(cron) => includes(cron, now)
  }

  function IsRemovable(task: Task, now: int): bool {
    match task.time
    case Datetime(at) => at <= now
    case Crontab(_) => false
  }

  datatype RunResult = Fired(action: nat) | Idle | Unsupported

  function RunSync(task: Task, now: int, includes: Includes): RunResult {
    if task.isAsync then Unsupported
    else if IsActive(task.time, now, includes) then Fired(task.action) else Idle
  }

  function RunAsync(task: Task, now: int, includes: Includes): RunResult {
    if !task.isAsync then Unsupported
    else if IsActive(task.time, now, includes) then Fired(task.action) else Idle
  }

  /** What a spawned execution does: the tick picks the function that fits the task. */
  function Execution(task: Task, now: int, includes: Includes): RunResult {
    if task.isAsync then RunAsync(task, now, includes) else RunSync(task, now, includes)
  }

  // ---------------------------------------------------------------- the task list

  predicate DistinctIds(tasks: seq<Task>) {
    forall i, j | 0 <= i < j < |tasks| :: tasks[i].id != tasks[j].id
  }

  function Without(tasks: seq<Task>, ids: set<string>): seq<Task> {
    if tasks == [] then []
    else
      var rest, last := Without(tasks[..|tasks| - 1], ids), tasks[|tasks| - 1];
      if last.id in ids then rest else rest + [last]
  }

  lemma {:induction false} WithoutHas(tasks: seq<Task>, ids: set<string>, t: Task)
    ensures t in Without(tasks, ids) <==> t in tasks && t.id !in ids
    decreases |tasks|
  {
    if tasks != [] {
      WithoutHas(tasks[..|tasks| - 1], ids, t);
      assert tasks == tasks[..|tasks| - 1] + [tasks[|tasks| - 1]];
    }
  }

  /** The tasks that stay keep their order. */
  lemma {:induction false} WithoutSplits(a: seq<Task>, b: seq<Task>, ids: set<string>)
    ensures Without(a + b, ids) == Without(a, ids) + Without(b, ids)
    decreases |b|
  {
    if b == [] {
      assert a + b == a;
    } else {
      assert (a + b)[..|a + b| - 1] == a + b[..|b| - 1];
      WithoutSplits(a, b[..|b| - 1], ids);
    }
  }

  lemma {:induction false} WithoutKeepsDistinct(tasks: seq<Task>, ids: set<string>)
    requires DistinctIds(tasks)
    ensures DistinctIds(Without(tasks, ids))
    decreases |tasks|
  {
    if tasks != [] {
      var rest, last := tasks[..|tasks| - 1], tasks[|tasks| - 1];
      WithoutKeepsDistinct(rest, ids);
      forall i | 0 <= i < |Without(rest, ids)| ensures Without(rest, ids)[i].id != last.id {
        WithoutHas(rest, ids, Without(rest, ids)[i]);
      }
    }
  }

  lemma {:induction false} WithoutTwice(tasks: seq<Task>, a: set<string>, b: set<string>)
    ensures Without(Without(tasks, a), b) == Without(tasks, a + b)
    decreases |tasks|
  {
    if tasks != [] {
      var rest, last := tasks[..|tasks| - 1], tasks[|tasks| - 1];
      WithoutTwice(rest, a, b);
      if last.id !in a {
        assert (Without(rest, a) + [last])[..|Without(rest, a)|] == Without(rest, a);
      }
    }
  }

  lemma {:induction false} WithoutNothing(tasks: seq<Task>)
    ensures Without(tasks, {}) == tasks
    decreases |tasks|
  {
    if tasks != [] {
      WithoutNothing(tasks[..|tasks| - 1]);
    }
  }

  function IdsWithout(tasks: seq<Task>, prefix: string): set<string> {
    set t | t in tasks && !(prefix <= t.id) :: t.id
  }

  /** Removing "by prefix" keeps exactly the tasks whose id starts with it. */
  lemma SubKeeps(tasks: seq<Task>, prefix: string, t: Task)
    ensures t in Without(tasks, IdsWithout(tasks, prefix)) <==> t in tasks && prefix <= t.id
  {
    WithoutHas(tasks, IdsWithout(tasks, prefix), t);
    if t.id in IdsWithout(tasks, prefix) {
      var u :| u in tasks && !(prefix <= u.id) && u.id == t.id;
    }
  }

  /** An execution spawned after its task was looked at, at time `checked`. */
  datatype Spawn = Spawn(task: Task, checked: int)

  function Spawned(tasks: seq<Task>, times: seq<int>): seq<Spawn>
    requires |times| == |tasks|
  {
    seq(|tasks|, i requires 0 <= i < |tasks| => Spawn(tasks[i], times[i]))
  }

  /** The ids a tick puts on its list; `times` are the readings of the clock, one per task. */
  function RemovableIds(tasks: seq<Task>, times: seq<int>): set<string>
    requires |times| == |tasks|
  {
    set i | 0 <= i < |tasks| && IsRemovable(tasks[i], times[i]) :: tasks[i].id
  }

  function AfterTick(tasks: seq<Task>, times: seq<int>): seq<Task>
    requires |times| == |tasks|
  {
    Without(tasks, RemovableIds(tasks, times))
  }

  /** With distinct ids a tick drops exactly the one-shot tasks found due. */
  lemma TickDropsDue(tasks: seq<Task>, times: seq<int>, i: nat)
    requires |times| == |tasks| && DistinctIds(tasks) && i < |tasks|
    ensures tasks[i] !in AfterTick(tasks, times) <==> tasks[i].time.Datetime? && tasks[i].time.at <= times[i]
  {
    hide Without;
    WithoutHas(tasks, RemovableIds(tasks, times), tasks[i]);
    if tasks[i].id in RemovableIds(tasks, times) {
      var j :| 0 <= j < |tasks| && IsRemovable(tasks[j], times[j]) && tasks[j].id == tasks[i].id;
      assert j == i;
    }
  }

  class Scheduler {
    var tasks: seq<Task>
    var scheduling: bool

    constructor ()
      ensures tasks == [] && scheduling
    {
      tasks, scheduling := [], true;
    }

    /** Rejects a task whose id is taken. */
    method AddTask(task: Task) returns (ok: bool)
      modifies this
      ensures ok <==> forall t | t in old(tasks) :: t.id != task.id
      ensures tasks == old(tasks) + if ok then [task] else []
      ensures old(DistinctIds(tasks)) ==> DistinctIds(tasks)
      ensures scheduling == old(scheduling)
    {
      ok := true;
      for i := 0 to |tasks|
        invariant tasks == old(tasks) && scheduling == old(scheduling) && ok
        invariant forall j | 0 <= j < i :: tasks[j].id != task.id
      {
        if tasks[i].id == task.id {
          return false;
        }
      }
      tasks := tasks + [task];
    }

    /** `retain`. */
    method RemoveTask(id: string)
      modifies this
      ensures tasks == Without(old(tasks), {id}) && scheduling == old(scheduling)
    {
      var kept := [];
      for i := 0 to |tasks|
        invariant tasks == old(tasks) && scheduling == old(scheduling)
        invariant kept == Without(tasks[..i], {id})
      {
        assert tasks[..i + 1][..i] == tasks[..i];
        if tasks[i].id != id {
          kept := kept + [tasks[i]];
        }
      }
      assert tasks[..|tasks|] == tasks;
      tasks := kept;
    }

    /** Despite its name this keeps the tasks whose id starts with `prefix`, and no others. */
    method RemoveTaskSub(prefix: string)
      modifies this
      ensures tasks == Without(old(tasks), IdsWithout(old(tasks), prefix)) && scheduling == old(scheduling)
    {
      ghost var ids := IdsWithout(tasks, prefix);
      var kept := [];
      for i := 0 to |tasks|
        invariant tasks == old(tasks) && scheduling == old(scheduling)
        invariant kept == Without(tasks[..i], ids)
      {
        assert tasks[..i + 1][..i] == tasks[..i];
        assert tasks[i] in tasks;
        if prefix <= tasks[i].id {
          kept := kept + [tasks[i]];
        }
      }
      assert tasks[..|tasks|] == tasks;
      tasks := kept;
    }

    /** One tick: every task is looked at and gets an execution; the due one-shots are then removed by id. */
    method Run(times: seq<int>) returns (spawned: seq<Spawn>)
      requires |times| == |tasks|
      modifies this
      ensures spawned == Spawned(old(tasks), times)
      ensures tasks == AfterTick(old(tasks), times) && scheduling == old(scheduling)
    {
      hide Without;
      var removable := [];
      spawned := [];
      for i := 0 to |tasks|
        invariant tasks == old(tasks) && scheduling == old(scheduling)
        invariant spawned == Spawned(tasks, times)[..i]
        invariant forall id :: id in removable <==>
          exists j | 0 <= j < i :: IsRemovable(tasks[j], times[j]) && tasks[j].id == id
      {
        if IsRemovable(tasks[i], times[i]) {
          removable := removable + [tasks[i].id];
        }
        spawned := spawned + [Spawn(tasks[i], times[i])];
      }
      ghost var ids: set<string> := {};
      WithoutNothing(tasks);
      for k := 0 to |removable|
        invariant tasks == Without(old(tasks), ids) && scheduling == old(scheduling)
        invariant ids == set j | 0 <= j < k :: removable[j]
      {
        RemoveTask(removable[k]);
        WithoutTwice(old(tasks), ids, {removable[k]});
        ids := ids + {removable[k]};
      }
      assert ids == RemovableIds(old(tasks), times) by {
        forall id ensures id in ids <==> id in RemovableIds(old(tasks), times) {
          assert id in ids <==> id in removable;
        }
      }
    }

    method Stop()
      modifies this
      ensures !scheduling && tasks == old(tasks)
    {
      scheduling := false;
    }
  }

  // ---------------------------------------------------------------- whole runs

  /** A finished execution. */
  datatype Exec = Exec(task: Task, checked: int, at: int, result: RunResult)

  /**
    The scheduler and everything it set in motion: whether its loop runs and has ticked since it last
    looked at the stop flag, executions not yet run, executions done, and the history of the tasks
    ticks dropped and of the tasks added.
   */
  datatype System = System(
    tasks: seq<Task>,
    scheduling: bool,
    looping: bool,
    ticked: bool,
    clock: int,
    pending: multiset<Spawn>,
    done: seq<Exec>,
    dropped: set<Spawn>,
    added: multiset<Task>)

  datatype Step =
    | Tick(times: seq<int>)
    | Execute(spawn: Spawn, at: int)
    | Add(task: Task)
    | Remove(id: string)
    | RemoveSub(prefix: string)
    | StopLoop
    | CheckFlag
    | StartLoop
    | Pass(to: int)

  predicate Nondecreasing(from: int, times: seq<int>)
    decreases |times|
  {
    times == [] || (from <= times[0] && Nondecreasing(times[0], times[1..]))
  }

  /**
    The clock never runs backwards, and the loop looks at the stop flag after every tick. An execution
    runs at some moment after it was spawned, perhaps while its tick is still reading the clock.
   */
  predicate Enabled(s: System, step: Step) {
    match step
    case Tick(times) => s.looping && !s.ticked && |times| == |s.tasks| && Nondecreasing(s.clock, times)
    case Execute(spawn, at) => spawn in s.pending && spawn.checked <= at
    case Add(task) => forall t | t in s.tasks :: t.id != task.id
    case CheckFlag => s.looping && s.ticked
    case StartLoop => !s.looping
    case Pass(to) => s.clock <= to
    case _ => true
  }

  function DroppedBy(tasks: seq<Task>, times: seq<int>): set<Spawn>
    requires |times| == |tasks|
  {
    set i | 0 <= i < |tasks| && IsRemovable(tasks[i], times[i]) :: Spawn(tasks[i], times[i])
  }

  function Apply(s: System, step: Step, includes: Includes): System
    requires Enabled(s, step)
  {
    match step
    case Tick(times) =>
      s.(tasks := AfterTick(s.tasks, times),
         ticked := true,
         clock := if times == [] then s.clock else times[|times| - 1],
         pending := s.pending + multiset(Spawned(s.tasks, times)),
         dropped := s.dropped + DroppedBy(s.tasks, times))
    case Execute(spawn, at) =>
      s.(pending := s.pending - multiset{spawn},
         done := s.done + [Exec(spawn.task, spawn.checked, at, Execution(spawn.task, at, includes))])
    case Add(task) => s.(tasks := s.tasks + [task], added := s.added + multiset{task})
    case Remove(id) => s.(tasks := Without(s.tasks, {id}))
    case RemoveSub(prefix) => s.(tasks := Without(s.tasks, IdsWithout(s.tasks, prefix)))
    case StopLoop => s.(scheduling := false)
    case CheckFlag => s.(scheduling := true, looping := s.scheduling, ticked := false)
    case StartLoop => s.(looping := true, ticked := false)
    case Pass(to) => s.(clock := to)
  }

  predicate ExecFits(e: Exec, includes: Includes) {
    && e.checked <= e.at
    && e.result == if IsActive(e.task.time, e.at, includes) then Fired(e.task.action) else Idle
  }

  /** A dropped one-shot was due when it was dropped, and its execution is still to come or has fired. */
  ghost predicate StillServed(s: System, d: Spawn) {
    && d.task.time.Datetime? && d.task.time.at <= d.checked
    && (d in s.pending ||
        exists e | e in s.done :: e.task == d.task && e.checked == d.checked && e.result == Fired(d.task.action))
  }

  ghost predicate Safe(s: System, includes: Includes) {
    && DistinctIds(s.tasks)
    && (forall e | e in s.done :: ExecFits(e, includes))
    && (forall d | d in s.dropped :: StillServed(s, d))
  }

  lemma TickIsSafe(s: System, times: seq<int>, includes: Includes)
    requires Safe(s, includes) && Enabled(s, Tick(times))
    ensures Safe(Apply(s, Tick(times), includes), includes)
  {
    hide Without, Nondecreasing, ExecFits;
    var next := Apply(s, Tick(times), includes);
    WithoutKeepsDistinct(s.tasks, RemovableIds(s.tasks, times));
    forall d | d in next.dropped ensures StillServed(next, d) {
      if d in s.dropped {
        assert StillServed(s, d);
      } else {
        var i :| 0 <= i < |s.tasks| && IsRemovable(s.tasks[i], times[i]) && d == Spawn(s.tasks[i], times[i]);
        assert Spawned(s.tasks, times)[i] == d;
        assert d in multiset(Spawned(s.tasks, times));
      }
    }
  }

  lemma ExecuteIsSafe(s: System, spawn: Spawn, at: int, includes: Includes)
    requires Safe(s, includes) && Enabled(s, Execute(spawn, at))
    ensures Safe(Apply(s, Execute(spawn, at), includes), includes)
  {
    var next := Apply(s, Execute(spawn, at), includes);
    var e := Exec(spawn.task, spawn.checked, at, Execution(spawn.task, at, includes));
    assert next.done == s.done + [e] && e in next.done;
    forall d | d in next.dropped ensures StillServed(next, d) {
      assert StillServed(s, d);
      if d == spawn {
        assert e.result == Fired(d.task.action);
      } else if d !in s.pending {
        var f :| f in s.done && f.task == d.task && f.checked == d.checked && f.result == Fired(d.task.action);
        assert f in next.done;
      } else {
        assert d in next.pending;
      }
    }
  }

  /** Every step keeps every promise. */
  lemma StepIsSafe(s: System, step: Step, includes: Includes)
    requires Safe(s, includes) && Enabled(s, step)
    ensures Safe(Apply(s, step, includes), includes)
  {
    hide Without, ExecFits;
    match step
    case Tick(times) => TickIsSafe(s, times, includes);
    case Execute(spawn, at) => ExecuteIsSafe(s, spawn, at, includes);
    case Remove(id) =>
      WithoutKeepsDistinct(s.tasks, {id});
      SameServed(s, Apply(s, step, includes));
    case RemoveSub(prefix) =>
      WithoutKeepsDistinct(s.tasks, IdsWithout(s.tasks, prefix));
      SameServed(s, Apply(s, step, includes));
    case _ =>
      SameServed(s, Apply(s, step, includes));
  }

  lemma SameServed(s: System, next: System)
    requires next.pending == s.pending && next.done == s.done
    ensures forall d :: StillServed(s, d) ==> StillServed(next, d)
  {
  }

  predicate AllEnabled(s: System, steps: seq<Step>, includes: Includes)
    decreases |steps|
  {
    steps == [] || (Enabled(s, steps[0]) && AllEnabled(Apply(s, steps[0], includes), steps[1..], includes))
  }

  function RunSteps(s: System, steps: seq<Step>, includes: Includes): System
    requires AllEnabled(s, steps, includes)
    decreases |steps|
  {
    if steps == [] then s else RunSteps(Apply(s, steps[0], includes), steps[1..], includes)
  }

  const INITIAL := System([], true, false, false, 0, multiset{}, [], {}, multiset{})

  /** Over any interleaving of ticks, executions and calls, from any safe state. */
  lemma {:induction false} RunsAreSafe(s: System, steps: seq<Step>, includes: Includes)
    requires Safe(s, includes) && AllEnabled(s, steps, includes)
    ensures Safe(RunSteps(s, steps, includes), includes)
    decreases |steps|
  {
    hide Safe, Apply, Enabled;
    if steps != [] {
      StepIsSafe(s, steps[0], includes);
      RunsAreSafe(Apply(s, steps[0], includes), steps[1..], includes);
    }
  }

  /**
    What the invariant says about the runs of a new scheduler: ids are distinct, nothing fires before
    its time, only due one-shots are dropped, and a dropped one whose execution is no longer pending has fired.
   */
  lemma SchedulerSafety(steps: seq<Step>, includes: Includes)
    requires AllEnabled(INITIAL, steps, includes)
    ensures var s := RunSteps(INITIAL, steps, includes);
      && DistinctIds(s.tasks)
      && (forall e | e in s.done :: e.result.Fired? ==> IsActive(e.task.time, e.at, includes))
      && (forall d | d in s.dropped :: d.task.time.Datetime? && d.task.time.at <= d.checked)
      && (forall d | d in s.dropped && d !in s.pending ::
            exists e | e in s.done :: e.task == d.task && e.result == Fired(d.task.action) && d.task.time.at <= e.at)
  {
    hide RunSteps, AllEnabled;
    RunsAreSafe(INITIAL, steps, includes);
    var s := RunSteps(INITIAL, steps, includes);
    forall d | d in s.dropped && d !in s.pending
      ensures exists e | e in s.done :: e.task == d.task && e.result == Fired(d.task.action) && d.task.time.at <= e.at
    {
      assert StillServed(s, d);
      var e :| e in s.done && e.task == d.task && e.checked == d.checked && e.result == Fired(d.task.action);
      assert ExecFits(e, includes);
    }
  }

  // ---------------------------------------------------------------- stopping

  function Ticks(steps: seq<Step>): nat {
    if steps == [] then 0 else (if steps[0].Tick? then 1 else 0) + Ticks(steps[1..])
  }

  /** After `stop` a running loop ticks at most once more, and a loop that has just ticked not at all. */
  lemma {:induction false} StopEndsLoop(s: System, steps: seq<Step>, includes: Includes)
    requires !s.scheduling && AllEnabled(s, steps, includes) && StartLoop !in steps
    ensures Ticks(steps) <= if s.looping && !s.ticked then 1 else 0
    decreases |steps|
  {
    hide Without, AfterTick, DroppedBy, Nondecreasing;
    if steps != [] {
      var next := Apply(s, steps[0], includes);
      if next.scheduling {
        NoLoopNoTick(next, steps[1..], includes);
      } else {
        StopEndsLoop(next, steps[1..], includes);
      }
    }
  }

  lemma {:induction false} NoLoopNoTick(s: System, steps: seq<Step>, includes: Includes)
    requires !s.looping && AllEnabled(s, steps, includes) && StartLoop !in steps
    ensures Ticks(steps) == 0
    decreases |steps|
  {
    hide Without, AfterTick, DroppedBy, Nondecreasing;
    if steps != [] {
      NoLoopNoTick(Apply(s, steps[0], includes), steps[1..], includes);
    }
  }

  /**
    A loop that is stopped while it waits still ticks once; then it ends, and leaves the flag as a new loop
    needs it.
   */
  lemma StopAllowsOneTick(s: System, times: seq<int>, includes: Includes)
    requires Enabled(s, Tick(times))
    ensures AllEnabled(s, [StopLoop, Tick(times), CheckFlag], includes)
    ensures var last := RunSteps(s, [StopLoop, Tick(times), CheckFlag], includes);
      !last.looping && last.scheduling && last.tasks == AfterTick(s.tasks, times)
  {
    hide AfterTick, DroppedBy, Spawned, Nondecreasing;
    var steps := [StopLoop, Tick(times), CheckFlag];
    assert steps[1..] == [Tick(times), CheckFlag] && steps[1..][1..] == [CheckFlag] && [CheckFlag][1..] == [];
    var stopped := Apply(s, StopLoop, includes);
    OneStep(Apply(stopped, Tick(times), includes), CheckFlag, includes);
  }

  /** Unless it is stopped, a running loop goes on. */
  lemma {:induction false} LoopGoesOn(s: System, steps: seq<Step>, includes: Includes)
    requires s.looping && s.scheduling && AllEnabled(s, steps, includes) && StopLoop !in steps
    ensures RunSteps(s, steps, includes).looping
    decreases |steps|
  {
    hide Without, AfterTick, DroppedBy, Nondecreasing;
    if steps != [] {
      LoopGoesOn(Apply(s, steps[0], includes), steps[1..], includes);
    }
  }

  /** Which tasks there are after each kind of step. */
  lemma StepChangesTasks(s: System, step: Step, includes: Includes, t: Task)
    requires Safe(s, includes) && Enabled(s, step)
    ensures t in Apply(s, step, includes).tasks <==>
      match step
      case Add(task) => t in s.tasks || t == task
      case Remove(id) => t in s.tasks && t.id != id
      case RemoveSub(prefix) => t in s.tasks && prefix <= t.id
      case Tick(times) =>
        exists i | 0 <= i < |s.tasks| :: s.tasks[i] == t && !(t.time.Datetime? && t.time.at <= times[i])
      case _ => t in s.tasks
  {
    hide Without, AfterTick, ExecFits, StillServed, Nondecreasing, IdsWithout, DroppedBy, Spawned;
    match step
    case Remove(id) => WithoutHas(s.tasks, {id}, t);
    case RemoveSub(prefix) => SubKeeps(s.tasks, prefix, t);
    case Tick(times) =>
      TickKeepsOnlyOld(s.tasks, times, t);
      if t in s.tasks {
        var i :| 0 <= i < |s.tasks| && s.tasks[i] == t;
        TickDropsDue(s.tasks, times, i);
      }
    case _ =>
  }

  lemma TickKeepsOnlyOld(tasks: seq<Task>, times: seq<int>, t: Task)
    requires |times| == |tasks|
    ensures t in AfterTick(tasks, times) ==> t in tasks
  {
    WithoutHas(tasks, RemovableIds(tasks, times), t);
  }

  /** A task that a tick takes off the list is recorded as dropped, with the reading that found it due. */
  lemma DroppedIsRecorded(s: System, times: seq<int>, includes: Includes, t: Task)
    requires Safe(s, includes) && Enabled(s, Tick(times)) && t in s.tasks
    ensures t !in Apply(s, Tick(times), includes).tasks ==>
      exists d | d in Apply(s, Tick(times), includes).dropped :: d.task == t && Late(t, d.checked)
  {
    hide AfterTick, ExecFits, StillServed, Nondecreasing, Spawned;
    var i :| 0 <= i < |s.tasks| && s.tasks[i] == t;
    TickDropsDue(s.tasks, times, i);
    if t !in Apply(s, Tick(times), includes).tasks {
      assert Spawn(t, times[i]) in DroppedBy(s.tasks, times);
    }
  }

  /** What each kind of step sets in motion or finishes. */
  lemma StepChangesWork(s: System, step: Step, includes: Includes)
    requires Enabled(s, step)
    ensures var next := Apply(s, step, includes);
      match step
      case Tick(times) =>
        && next.done == s.done
        && (forall i | 0 <= i < |s.tasks| ::
              next.pending[Spawn(s.tasks[i], times[i])] > s.pending[Spawn(s.tasks[i], times[i])])
        && |next.pending| == |s.pending| + |s.tasks|
      case Execute(spawn, at) =>
        && |next.done| == |s.done| + 1 && next.done[..|s.done|] == s.done
        && next.done[|s.done|].task == spawn.task && next.done[|s.done|].at == at
        && next.pending + multiset{spawn} == s.pending
      case _ => next.pending == s.pending && next.done == s.done
  {
    hide AfterTick, DroppedBy, Nondecreasing, Execution;
    if step.Tick? {
      forall i | 0 <= i < |s.tasks| ensures Spawn(s.tasks[i], step.times[i]) in multiset(Spawned(s.tasks, step.times)) {
        assert Spawned(s.tasks, step.times)[i] == Spawn(s.tasks[i], step.times[i]);
      }
    }
  }

  /** A tick never loses a cron task. */
  lemma TickKeepsCron(s: System, times: seq<int>, includes: Includes, task: Task)
    requires Safe(s, includes) && Enabled(s, Tick(times)) && task in s.tasks && task.time.Crontab?
    ensures task in Apply(s, Tick(times), includes).tasks
  {
    hide Nondecreasing;
    var i :| 0 <= i < |s.tasks| && s.tasks[i] == task;
    TickDropsDue(s.tasks, times, i);
  }

  // ---------------------------------------------------------------- at least once, not exactly once

  /** A look at a one-shot task that finds it due. */
  predicate Late(t: Task, checked: int) {
    t.time.Datetime? && t.time.at <= checked
  }

  predicate LateExec(e: Exec, t: Task) {
    e.task == t && Late(t, e.checked)
  }

  ghost predicate NoLate(s: System, t: Task) {
    && (forall sp | sp in s.pending :: sp.task == t ==> !Late(t, sp.checked))
    && (forall e | e in s.done :: e.task == t ==> !Late(t, e.checked))
  }

  ghost predicate Unseen(s: System, t: Task) {
    && t !in s.tasks
    && (forall sp | sp in s.pending :: sp.task != t)
    && (forall e | e in s.done :: e.task != t)
  }

  ghost predicate PendingOneLate(s: System, t: Task) {
    && (forall sp | sp in s.pending && sp.task == t && Late(t, sp.checked) ::
          && s.pending[sp] == 1
          && (forall e | e in s.done :: !LateExec(e, t)))
    && (forall a, b | a in s.pending && b in s.pending ::
          a.task == t && b.task == t && Late(t, a.checked) && Late(t, b.checked) ==> a == b)
  }

  predicate DoneOneLate(done: seq<Exec>, t: Task) {
    forall i, j | 0 <= i < j < |done| :: !(LateExec(done[i], t) && LateExec(done[j], t))
  }

  /** Of a task added once, at most one execution was spawned by a tick that found it due. */
  ghost predicate OneLate(s: System, t: Task) {
    && (s.added[t] == 0 ==> Unseen(s, t))
    && (s.added[t] <= 1 ==> (t in s.tasks ==> NoLate(s, t)) && PendingOneLate(s, t) && DoneOneLate(s.done, t))
  }

  lemma SpawnedOnce(tasks: seq<Task>, times: seq<int>, i: nat)
    requires |times| == |tasks| && DistinctIds(tasks) && i < |tasks|
    ensures multiset(Spawned(tasks, times))[Spawned(tasks, times)[i]] == 1
    ensures forall sp | sp in multiset(Spawned(tasks, times)) && sp.task == tasks[i] :: sp == Spawn(tasks[i], times[i])
  {
    var all := Spawned(tasks, times);
    assert all == all[..i] + [all[i]] + all[i + 1..];
    assert all[i] !in all[..i] && all[i] !in all[i + 1..];
    forall sp | sp in multiset(all) && sp.task == tasks[i] ensures sp == all[i] {
      var j :| 0 <= j < |all| && all[j] == sp;
      assert j == i;
    }
  }

  lemma NotSpawned(tasks: seq<Task>, times: seq<int>, t: Task)
    requires |times| == |tasks| && t !in tasks
    ensures forall sp | sp in multiset(Spawned(tasks, times)) :: sp.task != t
  {
    forall sp | sp in multiset(Spawned(tasks, times)) ensures sp.task != t {
      var j :| 0 <= j < |tasks| && Spawned(tasks, times)[j] == sp;
    }
  }

  lemma TickKeepsOneLate(s: System, times: seq<int>, includes: Includes, t: Task)
    requires DistinctIds(s.tasks) && OneLate(s, t) && Enabled(s, Tick(times))
    ensures OneLate(Apply(s, Tick(times), includes), t)
  {
    hide Without, Nondecreasing, Spawned;
    var next := Apply(s, Tick(times), includes);
    WithoutHas(s.tasks, RemovableIds(s.tasks, times), t);
    if t in s.tasks {
      var i :| 0 <= i < |s.tasks| && s.tasks[i] == t;
      SpawnedOnce(s.tasks, times, i);
      SpawnedAt(s.tasks, times, i);
      TickDropsDue(s.tasks, times, i);
    } else {
      NotSpawned(s.tasks, times, t);
    }
  }

  lemma SpawnedAt(tasks: seq<Task>, times: seq<int>, i: nat)
    requires |times| == |tasks| && i < |tasks|
    ensures |Spawned(tasks, times)| == |tasks| && Spawned(tasks, times)[i] == Spawn(tasks[i], times[i])
  {
  }

  lemma DoneExtended(done: seq<Exec>, e: Exec, t: Task)
    requires DoneOneLate(done, t) && (LateExec(e, t) ==> forall f | f in done :: !LateExec(f, t))
    ensures DoneOneLate(done + [e], t)
  {
    hide LateExec;
    forall i, j | 0 <= i < j < |done + [e]| ensures !(LateExec((done + [e])[i], t) && LateExec((done + [e])[j], t)) {
      assert done[i] in done;
    }
  }

  lemma ExecuteKeepsOneLate(s: System, spawn: Spawn, at: int, includes: Includes, t: Task)
    requires OneLate(s, t) && Enabled(s, Execute(spawn, at))
    ensures OneLate(Apply(s, Execute(spawn, at), includes), t)
  {
    hide Execution, DoneOneLate;
    var next := Apply(s, Execute(spawn, at), includes);
    var e := Exec(spawn.task, spawn.checked, at, Execution(spawn.task, at, includes));
    assert next.done == s.done + [e];
    assert forall f | f in next.done :: f in s.done || f == e;
    assert forall sp | sp in next.pending :: sp in s.pending;
    if s.added[t] <= 1 {
      DoneExtended(s.done, e, t);
    }
  }

  lemma QuietKeepsOneLate(s: System, next: System, t: Task)
    requires OneLate(s, t) && next.pending == s.pending && next.done == s.done && next.added[t] >= s.added[t]
    requires t in next.tasks ==> t in s.tasks || next.added[t] > s.added[t]
    ensures OneLate(next, t)
  {
    hide DoneOneLate, LateExec, Late;
  }

  lemma StepKeepsOneLate(s: System, step: Step, includes: Includes, t: Task)
    requires DistinctIds(s.tasks) && OneLate(s, t) && Enabled(s, step)
    ensures OneLate(Apply(s, step, includes), t)
  {
    hide Without, OneLate, AfterTick, DroppedBy;
    var next := Apply(s, step, includes);
    match step
    case Tick(times) => TickKeepsOneLate(s, times, includes, t);
    case Execute(spawn, at) => ExecuteKeepsOneLate(s, spawn, at, includes, t);
    case Remove(id) =>
      WithoutHas(s.tasks, {id}, t);
      QuietKeepsOneLate(s, next, t);
    case RemoveSub(prefix) =>
      WithoutHas(s.tasks, IdsWithout(s.tasks, prefix), t);
      QuietKeepsOneLate(s, next, t);
    case _ => QuietKeepsOneLate(s, next, t);
  }

  lemma {:induction false} RunsKeepOneLate(s: System, steps: seq<Step>, includes: Includes, t: Task)
    requires Safe(s, includes) && OneLate(s, t) && AllEnabled(s, steps, includes)
    ensures OneLate(RunSteps(s, steps, includes), t)
    decreases |steps|
  {
    hide Apply, Enabled, OneLate;
    if steps != [] {
      StepIsSafe(s, steps[0], includes);
      StepKeepsOneLate(s, steps[0], includes, t);
      RunsKeepOneLate(Apply(s, steps[0], includes), steps[1..], includes, t);
    }
  }

  ghost predicate FiredAt(s: System, t: Task, i: nat) {
    i < |s.done| && s.done[i].task == t && s.done[i].result.Fired?
  }

  /**
    Once a one-shot task that was added once is dropped and none of its executions is pending, it has
    fired; and it has fired exactly once if and only if no execution spawned before its time ran at or after it.
   */
  lemma FiresOnceIff(steps: seq<Step>, includes: Includes, d: Spawn) returns (k: nat)
    requires AllEnabled(INITIAL, steps, includes)
    requires var s := RunSteps(INITIAL, steps, includes);
      && d in s.dropped && s.added[d.task] <= 1
      && forall sp | sp in s.pending :: sp.task != d.task
    ensures var s := RunSteps(INITIAL, steps, includes);
      && FiredAt(s, d.task, k)
      && d.task.time.Datetime?
      && ((forall i: nat | FiredAt(s, d.task, i) :: i == k) <==>
          forall e | e in s.done && e.task == d.task :: e.checked < d.task.time.at ==> e.at < d.task.time.at)
  {
    hide RunSteps, AllEnabled, ExecFits;
    var s, t := RunSteps(INITIAL, steps, includes), d.task;
    RunsAreSafe(INITIAL, steps, includes);
    RunsKeepOneLate(INITIAL, steps, includes, t);
    assert StillServed(s, d);
    var late :| late in s.done && late.task == t && late.checked == d.checked && late.result == Fired(t.action);
    k :| 0 <= k < |s.done| && s.done[k] == late;
    forall i: nat | i < |s.done| && s.done[i].task == t
      ensures s.done[i].result.Fired? <==> t.time.at <= s.done[i].at
      ensures t.time.at <= s.done[i].checked ==> i == k
    {
      assert s.done[i] in s.done;
      FitsMeans(s.done[i], includes);
    }
    if forall i: nat | FiredAt(s, t, i) :: i == k {
      forall e | e in s.done && e.task == t && e.checked < t.time.at ensures e.at < t.time.at {
        var m :| 0 <= m < |s.done| && s.done[m] == e;
        assert FiredAt(s, t, m) ==> m == k;
      }
    }
  }

  lemma FitsMeans(e: Exec, includes: Includes)
    requires ExecFits(e, includes)
    ensures e.checked <= e.at && (e.result.Fired? <==> IsActive(e.task.time, e.at, includes))
  {
  }

  /**
    Of every run, what each execution did: a one-shot's fired if and only if its time had come, a cron
    task's if and only if the schedule included the moment; and what fired was the task's own action.
   */
  lemma ExecutionsFire(steps: seq<Step>, includes: Includes, e: Exec)
    requires AllEnabled(INITIAL, steps, includes) && e in RunSteps(INITIAL, steps, includes).done
    ensures e.result == Fired(e.task.action) || e.result == Idle
    ensures match e.task.time
      case Datetime(at) => e.result.Fired? <==> at <= e.at
      case Crontab(cron) => e.result.Fired? <==> includes(cron, e.at)
  {
    hide RunSteps, AllEnabled;
    RunsAreSafe(INITIAL, steps, includes);
    assert ExecFits(e, includes);
  }

  // ---------------------------------------------------------------- which tasks can fire twice

  ghost predicate FiresTwice(s: System, t: Task) {
    exists i: nat, j: nat :: i < j && FiredAt(s, t, i) && FiredAt(s, t, j)
  }

  /** Some way to go on, without adding the task again, in which it fires twice. */
  ghost predicate CanFireTwice(s: System, t: Task, includes: Includes) {
    exists steps :: AllEnabled(s, steps, includes) && Add(t) !in steps && FiresTwice(RunSteps(s, steps, includes), t)
  }

  /** The task was due before any tick looked at it. */
  ghost predicate EveryLate(s: System, t: Task) {
    && Late(t, s.clock) && s.added[t] <= 1
    && (forall sp | sp in s.pending :: sp.task == t ==> Late(t, sp.checked))
    && (forall e | e in s.done :: e.task == t ==> Late(t, e.checked))
  }

  lemma {:induction false} ReadingsAreLater(from: int, times: seq<int>, i: nat)
    requires Nondecreasing(from, times) && i < |times|
    ensures from <= times[i]
    decreases |times|
  {
    if i > 0 {
      ReadingsAreLater(times[0], times[1..], i - 1);
    }
  }

  lemma TickKeepsEveryLate(s: System, times: seq<int>, includes: Includes, t: Task)
    requires EveryLate(s, t) && Enabled(s, Tick(times))
    ensures EveryLate(Apply(s, Tick(times), includes), t)
  {
    hide Nondecreasing, AfterTick, DroppedBy;
    forall sp | sp in multiset(Spawned(s.tasks, times)) ensures s.clock <= sp.checked {
      var j :| 0 <= j < |s.tasks| && Spawned(s.tasks, times)[j] == sp;
      ReadingsAreLater(s.clock, times, j);
    }
    if times != [] {
      ReadingsAreLater(s.clock, times, |times| - 1);
    }
  }

  lemma StepKeepsEveryLate(s: System, step: Step, includes: Includes, t: Task)
    requires EveryLate(s, t) && Enabled(s, step) && step != Add(t)
    ensures EveryLate(Apply(s, step, includes), t)
  {
    hide Without, AfterTick, DroppedBy, Nondecreasing;
    match step
    case Tick(times) => TickKeepsEveryLate(s, times, includes, t);
    case _ =>
  }

  lemma {:induction false} RunsKeepEveryLate(s: System, steps: seq<Step>, includes: Includes, t: Task)
    requires EveryLate(s, t) && AllEnabled(s, steps, includes) && Add(t) !in steps
    ensures EveryLate(RunSteps(s, steps, includes), t)
    decreases |steps|
  {
    hide Apply, Enabled, EveryLate;
    if steps != [] {
      StepKeepsEveryLate(s, steps[0], includes, t);
      RunsKeepEveryLate(Apply(s, steps[0], includes), steps[1..], includes, t);
    }
  }

  /** One that is already due when it is added fires at most once, however the run goes on. */
  lemma DueWhenAdded(s: System, t: Task, includes: Includes)
    requires Safe(s, includes) && OneLate(s, t) && s.added[t] == 0 && Enabled(s, Add(t)) && Late(t, s.clock)
    ensures !CanFireTwice(Apply(s, Add(t), includes), t, includes)
  {
    hide AllEnabled, RunSteps, Safe;
    var s1 := Apply(s, Add(t), includes);
    StepIsSafe(s, Add(t), includes);
    QuietKeepsOneLate(s, s1, t);
    forall steps | AllEnabled(s1, steps, includes) && Add(t) !in steps
      ensures !FiresTwice(RunSteps(s1, steps, includes), t)
    {
      RunsKeepEveryLate(s1, steps, includes, t);
      RunsKeepOneLate(s1, steps, includes, t);
      OneLateFiresOnce(RunSteps(s1, steps, includes), t);
    }
  }

  lemma OneLateFiresOnce(s: System, t: Task)
    requires OneLate(s, t) && EveryLate(s, t)
    ensures !FiresTwice(s, t)
  {
    hide NoLate, PendingOneLate, Unseen, Late;
    forall i: nat | FiredAt(s, t, i) ensures LateExec(s.done[i], t) {
      assert s.done[i] in s.done;
    }
  }

  lemma {:induction false} RunsAppend(s: System, first: seq<Step>, second: seq<Step>, includes: Includes)
    requires AllEnabled(s, first, includes) && AllEnabled(RunSteps(s, first, includes), second, includes)
    ensures AllEnabled(s, first + second, includes)
    ensures RunSteps(s, first + second, includes) == RunSteps(RunSteps(s, first, includes), second, includes)
    decreases |first|
  {
    hide Apply, Enabled;
    if first == [] {
      assert first + second == second;
    } else {
      assert (first + second)[1..] == first[1..] + second;
      RunsAppend(Apply(s, first[0], includes), first[1..], second, includes);
    }
  }

  lemma OneStep(s: System, step: Step, includes: Includes)
    requires Enabled(s, step)
    ensures AllEnabled(s, [step], includes) && RunSteps(s, [step], includes) == Apply(s, step, includes)
  {
    hide Apply, Enabled;
    assert [step][1..] == [];
  }

  /** What the loop does before its next tick; a stopped loop is started again. */
  function UntilTick(s: System): seq<Step> {
    if !s.looping then [StartLoop]
    else if !s.ticked then []
    else if s.scheduling then [CheckFlag]
    else [CheckFlag, StartLoop]
  }

  lemma UntilTickRuns(s: System, includes: Includes)
    ensures AllEnabled(s, UntilTick(s), includes)
    ensures var next := RunSteps(s, UntilTick(s), includes);
      next == s.(looping := true, ticked := false, scheduling := next.scheduling)
  {
    if s.looping && s.ticked && !s.scheduling {
      OneStep(s, CheckFlag, includes);
      OneStep(Apply(s, CheckFlag, includes), StartLoop, includes);
      RunsAppend(s, [CheckFlag], [StartLoop], includes);
      assert [CheckFlag] + [StartLoop] == [CheckFlag, StartLoop];
    } else if UntilTick(s) != [] {
      OneStep(s, UntilTick(s)[0], includes);
    }
  }

  function Readings(n: nat, now: int): seq<int> {
    seq(n, _ => now)
  }

  lemma {:induction false} ReadingsEnabled(from: int, n: nat, now: int)
    requires from <= now
    ensures Nondecreasing(from, Readings(n, now))
    decreases n
  {
    if n > 0 {
      ReadingsEnabled(now, n - 1, now);
      assert Readings(n, now)[1..] == Readings(n - 1, now);
    }
  }

  /** The loop can always come to tick, with all its readings at one moment. */
  lemma TickAt(s: System, now: int, includes: Includes) returns (steps: seq<Step>)
    requires s.clock <= now
    ensures AllEnabled(s, steps, includes) && forall t :: Add(t) !in steps
    ensures var next, times := RunSteps(s, steps, includes), Readings(|s.tasks|, now);
      && next.tasks == AfterTick(s.tasks, times) && next.clock <= now
      && next.pending == s.pending + multiset(Spawned(s.tasks, times)) && next.done == s.done
  {
    hide AllEnabled, RunSteps, AfterTick, Spawned, DroppedBy, Nondecreasing;
    UntilTickRuns(s, includes);
    var ready, tick := RunSteps(s, UntilTick(s), includes), Tick(Readings(|s.tasks|, now));
    ReadingsEnabled(s.clock, |s.tasks|, now);
    OneStep(ready, tick, includes);
    RunsAppend(s, UntilTick(s), [tick], includes);
    steps := UntilTick(s) + [tick];
  }

  lemma TwoExecutions(s: System, a: Spawn, b: Spawn, at: int, includes: Includes) returns (steps: seq<Step>)
    requires a != b && a in s.pending && b in s.pending && a.checked <= at && b.checked <= at
    ensures AllEnabled(s, steps, includes) && forall t :: Add(t) !in steps
    ensures RunSteps(s, steps, includes).done == s.done +
      [Exec(a.task, a.checked, at, Execution(a.task, at, includes)),
       Exec(b.task, b.checked, at, Execution(b.task, at, includes))]
  {
    hide Execution, RunSteps, AllEnabled;
    var next := Apply(s, Execute(a, at), includes);
    OneStep(s, Execute(a, at), includes);
    OneStep(next, Execute(b, at), includes);
    RunsAppend(s, [Execute(a, at)], [Execute(b, at)], includes);
    steps := [Execute(a, at)] + [Execute(b, at)];
  }

  lemma LookedAt(tasks: seq<Task>, now: int, i: nat)
    requires DistinctIds(tasks) && i < |tasks|
    ensures Spawn(tasks[i], now) in multiset(Spawned(tasks, Readings(|tasks|, now)))
    ensures tasks[i] in AfterTick(tasks, Readings(|tasks|, now)) <==> !Late(tasks[i], now)
  {
    hide AfterTick;
    TickDropsDue(tasks, Readings(|tasks|, now), i);
    assert Spawned(tasks, Readings(|tasks|, now))[i] == Spawn(tasks[i], now);
  }

  /** One that is not due yet can be looked at too early, again at its time, and both executions run after that. */
  lemma NotDueWhenAdded(s: System, t: Task, includes: Includes)
    requires DistinctIds(s.tasks) && t in s.tasks && t.time.Datetime? && s.clock < t.time.at
    ensures CanFireTwice(s, t, includes)
  {
    hide AllEnabled, RunSteps, AfterTick, Spawned, DistinctIds;
    var i :| 0 <= i < |s.tasks| && s.tasks[i] == t;
    var first := TickAt(s, s.clock, includes);
    var mid := RunSteps(s, first, includes);
    LookedAt(s.tasks, s.clock, i);
    WithoutKeepsDistinct(s.tasks, RemovableIds(s.tasks, Readings(|s.tasks|, s.clock)));
    var j :| 0 <= j < |mid.tasks| && mid.tasks[j] == t;
    AfterTickDistinct(s, s.clock);
    var second := TickAt(mid, t.time.at, includes);
    LookedAt(mid.tasks, t.time.at, j);
    var last := RunSteps(mid, second, includes);
    var third := TwoExecutions(last, Spawn(t, s.clock), Spawn(t, t.time.at), t.time.at, includes);
    RunsAppend(mid, second, third, includes);
    RunsAppend(s, first, second + third, includes);
    var end := RunSteps(s, first + (second + third), includes);
    assert FiredAt(end, t, |last.done|) && FiredAt(end, t, |last.done| + 1);
  }

  lemma AfterTickDistinct(s: System, now: int)
    requires DistinctIds(s.tasks)
    ensures DistinctIds(AfterTick(s.tasks, Readings(|s.tasks|, now)))
  {
    hide Without;
    WithoutKeepsDistinct(s.tasks, RemovableIds(s.tasks, Readings(|s.tasks|, now)));
  }

  /**
    A one-shot task can fire twice if and only if it is not due yet when it is added: its first
    executions may be delayed past its time.
   */
  lemma FiresTwiceIff(before: seq<Step>, t: Task, includes: Includes)
    requires AllEnabled(INITIAL, before, includes) && t.time.Datetime?
    requires var s := RunSteps(INITIAL, before, includes);
      s.added[t] == 0 && Enabled(s, Add(t))
    ensures var s := RunSteps(INITIAL, before, includes);
      CanFireTwice(Apply(s, Add(t), includes), t, includes) <==> s.clock < t.time.at
  {
    hide AllEnabled, RunSteps, CanFireTwice;
    var s := RunSteps(INITIAL, before, includes);
    RunsAreSafe(INITIAL, before, includes);
    RunsKeepOneLate(INITIAL, before, includes, t);
    if s.clock < t.time.at {
      StepIsSafe(s, Add(t), includes);
      NotDueWhenAdded(Apply(s, Add(t), includes), t, includes);
    } else {
      DueWhenAdded(s, t, includes);
    }
  }

  /** A task for time 5, added to a new scheduler whose clock reads 0. */
  lemma OneShotCanFireTwice(includes: Includes)
    ensures var task := Task("once", Datetime(5), false, 0);
      CanFireTwice(Apply(INITIAL, Add(task), includes), task, includes)
  {
    hide CanFireTwice;
    FiresTwiceIff([], Task("once", Datetime(5), false, 0), includes);
  }
}
