/** The preemptive round-robin scheduler: the task table as the kernel keeps it, its operations on
    values, and the object whose methods compute them in place. */
module Scheduler {
  import opened Wrappers

  const DEFAULT_QUANTUM: nat := 10

  datatype TaskState = Ready | Running | Terminated
  datatype Task = Task(id: nat, name: string, state: TaskState, quantum: nat)

  /** The scheduler and the counter of task ids handed out. */
  datatype Table = Table(tasks: seq<Task>, current: nat, nextId: nat)

  predicate Runnable(t: Task) {
    t.state == Ready || t.state == Running
  }

  function Around(n: nat, i: nat): nat {
    if i < n then i else i - n
  }

  /** The slot behind slot `i` of a table of `n`. */
  function Behind(n: nat, i: nat): (r: nat)
    requires i < n
    ensures r == if i + 1 < n then i + 1 else 0
  {
    (i + 1) % n
  }

  /** The first runnable index at cyclic distance `d` or more behind `cur`, short of `cur` itself. */
  function NextRunnable(tasks: seq<Task>, cur: nat, d: nat): (r: Option<nat>)
    requires cur < |tasks| && 1 <= d <= |tasks|
    ensures r.Some? ==> r.value < |tasks| && r.value != cur && Runnable(tasks[r.value])
    decreases |tasks| - d
  {
    if d == |tasks| then None
    else if Runnable(tasks[Around(|tasks|, cur + d)]) then Some(Around(|tasks|, cur + d))
    else NextRunnable(tasks, cur, d + 1)
  }

  function WithQuantum(s: Table, i: nat, q: nat): Table
    requires i < |s.tasks|
  {
    s.(tasks := s.tasks[i := s.tasks[i].(quantum := q)])
  }

  function Demoted(t: Task): Task {
    if t.state == Running then t.(state := Ready) else t
  }

  /** `find_and_switch`: the new table, and the pair of contexts to switch between, if any. */
  function Switched(s: Table): (Table, Option<(nat, nat)>)
    requires s.current < |s.tasks|
  {
    match NextRunnable(s.tasks, s.current, 1)
    case None => (WithQuantum(s, s.current, DEFAULT_QUANTUM), None)
    case Some(next) => (HandedOver(s, s.current, next), Some((s.current, next)))
  }

  /** The running task goes back to Ready (a dead one stays dead), the next one starts a quantum. */
  function HandedOver(s: Table, from: nat, next: nat): Table
    requires from < |s.tasks| && next < |s.tasks|
  {
    var demoted := s.tasks[from := Demoted(s.tasks[from])];
    s.(tasks := demoted[next := demoted[next].(state := Running, quantum := DEFAULT_QUANTUM)], current := next)
  }

  /** `schedule_preempt`: one timer tick. */
  function Ticked(s: Table): (Table, Option<(nat, nat)>)
    requires s.current < |s.tasks|
  {
    var q := s.tasks[s.current].quantum;
    if |s.tasks| <= 1 then (s, None)
    else if q > 1 then (WithQuantum(s, s.current, q - 1), None)
    else if q == 1 then Switched(WithQuantum(s, s.current, 0))
    else Switched(s)
  }

  /** `schedule_yield`. */
  function Yielded(s: Table): (Table, Option<(nat, nat)>)
    requires s.current < |s.tasks|
  {
    if |s.tasks| <= 1 then (s, None) else Switched(s)
  }

  function Spawned(s: Table, name: string): Table {
    s.(tasks := s.tasks + [Task(s.nextId, name, Ready, DEFAULT_QUANTUM)], nextId := s.nextId + 1)
  }

  function TerminatedAt(s: Table, i: nat): Table
    requires i < |s.tasks|
  {
    s.(tasks := s.tasks[i := s.tasks[i].(state := Terminated)])
  }

  /** `exit_current_task` up to the switch. */
  function Exited(s: Table): (Table, Option<(nat, nat)>)
    requires s.current < |s.tasks|
  {
    Yielded(TerminatedAt(s, s.current))
  }

  /** The first live task with this id. */
  function FindLive(tasks: seq<Task>, id: nat): (r: Option<nat>)
    ensures r.Some? ==> r.value < |tasks| && tasks[r.value].id == id && tasks[r.value].state != Terminated
    ensures forall i :: 0 <= i < |tasks| && (r.Some? ==> i < r.value) ==>
      tasks[i].id != id || tasks[i].state == Terminated
  {
    if tasks == [] then None
    else if tasks[0].id == id && tasks[0].state != Terminated then Some(0)
    else
      assert forall i :: 1 <= i < |tasks| ==> tasks[i] == tasks[1..][i - 1];
      match FindLive(tasks[1..], id)
      case None => None
      case Some(i) => Some(i + 1)
  }

  predicate Kept(t: Task) {
    t.id == 0 || t.state != Terminated
  }

  function Retained(tasks: seq<Task>): seq<Task> {
    if tasks == [] then []
    else (if Kept(tasks[0]) then [tasks[0]] else []) + Retained(tasks[1..])
  }

  lemma RetainedStep(tasks: seq<Task>)
    requires tasks != []
    ensures Retained(tasks) == (if Kept(tasks[0]) then [tasks[0]] else []) + Retained(tasks[1..])
  {
  }

  lemma {:induction false} RetainedConcat(a: seq<Task>, b: seq<Task>)
    ensures Retained(a + b) == Retained(a) + Retained(b)
  {
    if a == [] {
      assert a + b == b;
    } else {
      hide Retained, Kept;
      RetainedStep(a);
      RetainedStep(a + b);
      RetainedConcat(a[1..], b);
      assert (a + b)[1..] == a[1..] + b && (a + b)[0] == a[0];
      var own: seq<Task> := if Kept(a[0]) then [a[0]] else [];
      assert own + (Retained(a[1..]) + Retained(b)) == (own + Retained(a[1..])) + Retained(b);
    }
  }

  lemma RetainedSnoc(tasks: seq<Task>, i: nat)
    requires i < |tasks|
    ensures Retained(tasks[..i + 1]) == Retained(tasks[..i]) + if Kept(tasks[i]) then [tasks[i]] else []
  {
    RetainedConcat(tasks[..i], [tasks[i]]);
    assert tasks[..i + 1] == tasks[..i] + [tasks[i]];
  }

  function FirstRunning(tasks: seq<Task>): (r: Option<nat>)
    ensures r.Some? ==> r.value < |tasks| && tasks[r.value].state == Running
    ensures forall i :: 0 <= i < |tasks| && (r.Some? ==> i < r.value) ==> tasks[i].state != Running
  {
    if tasks == [] then None
    else if tasks[0].state == Running then Some(0)
    else
      assert forall i :: 1 <= i < |tasks| ==> tasks[i] == tasks[1..][i - 1];
      match FirstRunning(tasks[1..])
      case None => None
      case Some(i) => Some(i + 1)
  }

  /** `cleanup_terminated`: drops dead tasks and looks for the running one again; `current` stays
      as it is when there is none. */
  function Cleaned(s: Table): Table {
    var kept := Retained(s.tasks);
    match FirstRunning(kept)
    case None => s.(tasks := kept)
    case Some(i) => s.(tasks := kept, current := i)
  }

  /** `cmd_kill` on a parsed id. */
  function Killed(s: Table, id: nat): Table {
    if id == 0 then s
    else match FindLive(s.tasks, id)
      case None => s
      case Some(i) => Cleaned(TerminatedAt(s, i))
  }

  // ---------- the object ----------

  class Scheduler {
    var tasks: seq<Task>
    var current: nat
    var nextId: nat

    ghost function Now(): Table
      reads this
    {
      Table(tasks, current, nextId)
    }

    constructor ()
      ensures Now() == Table([Task(0, "kernel", Running, DEFAULT_QUANTUM)], 0, 1)
    {
      tasks := [Task(0, "kernel", Running, DEFAULT_QUANTUM)];
      current, nextId := 0, 1;
    }

    method Spawn(name: string) returns (id: nat)
      modifies this
      ensures Now() == Spawned(old(Now()), name) && id == old(nextId)
    {
      id := nextId;
      nextId := nextId + 1;
      tasks := tasks + [Task(id, name, Ready, DEFAULT_QUANTUM)];
    }

    method SetQuantum(i: nat, q: nat)
      requires i < |tasks|
      modifies this`tasks
      ensures Now() == WithQuantum(old(Now()), i, q)
    {
      tasks := tasks[i := tasks[i].(quantum := q)];
    }

    method SchedulePreempt() returns (switch: Option<(nat, nat)>)
      requires current < |tasks|
      modifies this
      ensures (Now(), switch) == Ticked(old(Now()))
    {
      if |tasks| <= 1 { return None; }
      if tasks[current].quantum > 0 {
        SetQuantum(current, tasks[current].quantum - 1);
        if tasks[current].quantum > 0 { return None; }
      }
      switch := FindAndSwitch();
    }

    method ScheduleYield() returns (switch: Option<(nat, nat)>)
      requires current < |tasks|
      modifies this
      ensures (Now(), switch) == Yielded(old(Now()))
    {
      if |tasks| <= 1 { return None; }
      switch := FindAndSwitch();
    }

    /** The search runs over the table cyclically from the slot behind the current one and stops at
        the first runnable task, or once it is back where it started. */
    method FindAndSwitch() returns (switch: Option<(nat, nat)>)
      requires current < |tasks|
      modifies this
      ensures (Now(), switch) == Switched(old(Now()))
    {
      hide Behind;
      var oldIdx := current;
      var nextIdx := Behind(|tasks|, oldIdx);
      var start := nextIdx;
      ghost var d := 1;
      while !Runnable(tasks[nextIdx])
        invariant tasks == old(tasks) && current == old(current) && nextId == old(nextId)
        invariant 1 <= d <= |tasks| && nextIdx == Around(|tasks|, oldIdx + d)
        invariant NextRunnable(tasks, oldIdx, d) == NextRunnable(tasks, oldIdx, 1)
        decreases |tasks| - d
      {
        nextIdx := Behind(|tasks|, nextIdx);
        if nextIdx == start {
          SetQuantum(oldIdx, DEFAULT_QUANTUM);
          return None;
        }
        d := d + 1;
      }
      if nextIdx == oldIdx {
        SetQuantum(oldIdx, DEFAULT_QUANTUM);
        return None;
      }
      Promote(oldIdx, nextIdx);
      switch := Some((oldIdx, nextIdx));
    }

    /** The state changes of a switch. */
    method Promote(oldIdx: nat, nextIdx: nat)
      requires oldIdx < |tasks| && nextIdx < |tasks|
      modifies this
      ensures Now() == HandedOver(old(Now()), oldIdx, nextIdx)
    {
      if tasks[oldIdx].state == Running {
        tasks := tasks[oldIdx := tasks[oldIdx].(state := Ready)];
      }
      tasks := tasks[nextIdx := tasks[nextIdx].(state := Running)];
      SetQuantum(nextIdx, DEFAULT_QUANTUM);
      current := nextIdx;
      assert tasks == HandedOver(old(Now()), oldIdx, nextIdx).tasks;
    }

    method TerminateCurrent()
      requires current < |tasks|
      modifies this
      ensures Now() == TerminatedAt(old(Now()), old(current))
    {
      tasks := tasks[current := tasks[current].(state := Terminated)];
    }

    method ExitCurrentTask() returns (switch: Option<(nat, nat)>)
      requires current < |tasks|
      modifies this
      ensures (Now(), switch) == Exited(old(Now()))
    {
      TerminateCurrent();
      switch := ScheduleYield();
    }

    method KillTask(id: nat) returns (found: bool)
      modifies this
      ensures match FindLive(old(tasks), id)
              case None => !found && Now() == old(Now())
              case Some(i) => found && Now() == TerminatedAt(old(Now()), i)
    {
      for i := 0 to |tasks|
        invariant Now() == old(Now())
        invariant forall k :: 0 <= k < i ==> tasks[k].id != id || tasks[k].state == Terminated
      {
        if tasks[i].id == id && tasks[i].state != Terminated {
          tasks := tasks[i := tasks[i].(state := Terminated)];
          return true;
        }
      }
      found := false;
    }

    method CleanupTerminated()
      modifies this
      ensures Now() == Cleaned(old(Now()))
    {
      Retain();
      for i := 0 to |tasks|
        invariant Now() == old(Now()).(tasks := Retained(old(tasks)))
        invariant forall k :: 0 <= k < i ==> tasks[k].state != Running
      {
        if tasks[i].state == Running {
          current := i;
          break;
        }
      }
    }

    /** `tasks.retain(..)` */
    method Retain()
      modifies this`tasks
      ensures tasks == Retained(old(tasks))
    {
      var kept := [];
      for i := 0 to |tasks|
        invariant tasks == old(tasks)
        invariant kept == Retained(tasks[..i])
      {
        RetainedSnoc(tasks, i);
        if Kept(tasks[i]) {
          kept := kept + [tasks[i]];
        }
      }
      assert tasks[..|tasks|] == tasks;
      tasks := kept;
    }

    method Kill(id: nat)
      modifies this
      ensures Now() == Killed(old(Now()), id)
    {
      if id == 0 { return; }
      var found := KillTask(id);
      if found {
        CleanupTerminated();
      }
    }
  }
}
