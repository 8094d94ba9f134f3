/** Scheduler and processor together: every switch the scheduler decides on lands on a task whose
    frame is intact, and a waiting task is resumed where it left within its bounded wait. */
module Kernel {
  import opened Wrappers
  import opened Scheduler
  import L = SchedulerLaws
  import opened Machine
  import T = TaskSwitching

  /** The task table, and the processor with every task's stack, keyed by task id. */
  datatype Kernel = Kernel(table: Table, sys: T.Sys)

  datatype Event =
    | Compute(cpu: Cpu)                   // the running task works on its own stack
    | Tick(ret: Word) | Yield(ret: Word) | Exit(ret: Word)
    | Spawn(name: string, stack: T.Region, trampoline: Word, entry: Word)
    | Kill(id: nat)

  ghost predicate HasTask(s: Table, id: nat) {
    exists i :: 0 <= i < |s.tasks| && s.tasks[i].id == id
  }

  ghost predicate StacksMatch(s: Table, sys: T.Sys) {
    forall id: nat :: id in sys.stacks <==> HasTask(s, id)
  }

  /** The running task runs, every other task of the table is suspended, and nobody else has a stack. */
  ghost predicate Coupled(k: Kernel) {
    && L.Inv(k.table) && T.Inv(k.sys)
    && k.sys.current == L.CurrentId(k.table)
    && StacksMatch(k.table, k.sys)
  }

  /** Room for a switch frame on the running task's stack. */
  ghost predicate HasRoom(sys: T.Sys) {
    && sys.current in sys.stacks
    && sys.stacks[sys.current].lo <= sys.cpu.rsp - 56 && sys.cpu.rsp <= sys.stacks[sys.current].hi
  }

  ghost predicate Enabled(k: Kernel, e: Event)
    requires Coupled(k)
  {
    match e
    case Compute(c) => T.Enabled(k.sys, T.Local(c))
    case Tick(_) => HasRoom(k.sys)
    case Yield(_) => HasRoom(k.sys)
    case Exit(_) => HasRoom(k.sys) && L.CurrentId(k.table) != 0
    case Spawn(_, r, _, _) => r.lo + 56 <= r.hi && forall u :: u in k.sys.stacks ==> T.Apart(k.sys.stacks[u], r)
    case Kill(id) => id == 0 || id != L.CurrentId(k.table)
  }

  // ---------- scheduling decisions ----------

  ghost predicate SameIds(s: Table, s': Table) {
    |s'.tasks| == |s.tasks| && forall i :: 0 <= i < |s.tasks| ==> s'.tasks[i].id == s.tasks[i].id
  }

  /** A decision keeps the tasks of the table; it stays with the running one, or leaves it for another. */
  ghost predicate Decides(s: Table, d: (Table, Option<(nat, nat)>)) {
    && SameIds(s, d.0)
    && match d.1
       case None => d.0.current == s.current
       case Some((from, to)) => from == s.current && to == d.0.current && to != from
  }

  lemma SwitchedDecides(s: Table)
    requires s.current < |s.tasks|
    ensures Decides(s, Switched(s))
  {
  }

  lemma TickedDecides(s: Table)
    requires s.current < |s.tasks|
    ensures Decides(s, Ticked(s))
  {
    hide Switched;
    SwitchedDecides(s);
    SwitchedDecides(WithQuantum(s, s.current, 0));
  }

  lemma YieldedDecides(s: Table)
    requires s.current < |s.tasks|
    ensures Decides(s, Yielded(s))
  {
    hide Switched;
    SwitchedDecides(s);
  }

  lemma ExitedDecides(s: Table)
    requires s.current < |s.tasks|
    ensures Decides(s, Exited(s))
  {
    hide Yielded;
    YieldedDecides(TerminatedAt(s, s.current));
  }

  lemma SameIdsMatch(s: Table, s': Table, sys: T.Sys)
    requires SameIds(s, s') && StacksMatch(s, sys)
    ensures StacksMatch(s', sys)
  {
    forall id: nat ensures HasTask(s, id) <==> HasTask(s', id) {
      if HasTask(s, id) {
        var i :| 0 <= i < |s.tasks| && s.tasks[i].id == id;
        assert s'.tasks[i].id == id;
      }
    }
  }

  /** The context switch that a decision asks for. */
  ghost predicate CanCarryOut(sys: T.Sys, d: (Table, Option<(nat, nat)>), ret: Word) {
    d.1.None? || (d.0.current < |d.0.tasks| && T.Enabled(sys, T.SwitchTo(L.CurrentId(d.0), ret)))
  }

  ghost function CarriedOut(sys: T.Sys, d: (Table, Option<(nat, nat)>), ret: Word): Kernel
    requires CanCarryOut(sys, d, ret)
  {
    Kernel(d.0, if d.1.None? then sys else T.Apply(sys, T.SwitchTo(L.CurrentId(d.0), ret)))
  }

  /** With room for the frame, the switch that a decision asks for can always be carried out: the task
      it goes to is suspended with an intact frame. Afterwards table and processor agree. */
  lemma DecisionIsSound(k: Kernel, d: (Table, Option<(nat, nat)>), ret: Word)
    requires Coupled(k) && HasRoom(k.sys) && Decides(k.table, d) && L.Inv(d.0)
    ensures CanCarryOut(k.sys, d, ret) && Coupled(CarriedOut(k.sys, d, ret))
  {
    hide SwitchCall, StacksMatch, T.Frozen;
    SameIdsMatch(k.table, d.0, k.sys);
    if d.1.Some? {
      var id := L.CurrentId(d.0);
      assert id in k.sys.left by { SwitchTargetWaits(k, d); }
      T.StepKeepsInv(k.sys, T.SwitchTo(id, ret));
      assert T.Apply(k.sys, T.SwitchTo(id, ret)).stacks == k.sys.stacks;
      SameStacksMatch(d.0, k.sys, T.Apply(k.sys, T.SwitchTo(id, ret)));
    }
  }

  lemma SameStacksMatch(s: Table, a: T.Sys, b: T.Sys)
    requires StacksMatch(s, a) && a.stacks == b.stacks
    ensures StacksMatch(s, b)
  {
  }

  lemma SwitchTargetWaits(k: Kernel, d: (Table, Option<(nat, nat)>))
    requires Coupled(k) && Decides(k.table, d) && L.Inv(d.0) && d.1.Some?
    ensures L.CurrentId(d.0) in k.sys.left && L.CurrentId(d.0) != k.sys.current
  {
    hide T.Frozen;
    var to := d.0.current;
    assert k.table.tasks[to].id == L.CurrentId(d.0);
    assert HasTask(k.table, L.CurrentId(d.0));
  }

  // ---------- spawn, kill, compute ----------

  ghost function SpawnedWith(k: Kernel, e: Event): Kernel
    requires Coupled(k) && e.Spawn? && k.table.nextId !in k.sys.stacks && Enabled(k, e)
  {
    Kernel(Spawned(k.table, e.name), T.Apply(k.sys, T.Create(k.table.nextId, e.stack, e.trampoline, e.entry)))
  }

  /** The id of a new task was never handed out, so nobody holds a stack under it. */
  lemma NewIdIsFree(k: Kernel)
    requires Coupled(k)
    ensures k.table.nextId !in k.sys.stacks
  {
    hide T.Frozen;
  }

  lemma SpawnIsSound(k: Kernel, e: Event)
    requires Coupled(k) && e.Spawn? && k.table.nextId !in k.sys.stacks && Enabled(k, e)
    ensures Coupled(SpawnedWith(k, e))
  {
    hide T.Inv, T.Frozen, T.Apart, FirstFrame, HasTask;
    var k' := SpawnedWith(k, e);
    T.StepKeepsInv(k.sys, T.Create(k.table.nextId, e.stack, e.trampoline, e.entry));
    L.StepKeepsInv(k.table, L.Spawn(e.name));
    forall id: nat ensures HasTask(k'.table, id) <==> HasTask(k.table, id) || id == k.table.nextId {
      SpawnedTasks(k.table, e.name, id);
    }
  }

  lemma SpawnedTasks(s: Table, name: string, id: nat)
    ensures HasTask(Spawned(s, name), id) <==> HasTask(s, id) || id == s.nextId
  {
    var s' := Spawned(s, name);
    assert s'.tasks[|s.tasks|].id == s.nextId;
    if HasTask(s, id) {
      var i :| 0 <= i < |s.tasks| && s.tasks[i].id == id;
      assert s'.tasks[i].id == id;
    }
  }

  /** Only the stacks of tasks that are still in the table remain. */
  ghost function Pruned(sys: T.Sys, s: Table): T.Sys {
    sys.(stacks := map id | id in sys.stacks && HasTask(s, id) :: sys.stacks[id],
         left := map id | id in sys.left && HasTask(s, id) :: sys.left[id])
  }

  lemma PrunedKeepsInv(sys: T.Sys, s: Table)
    requires T.Inv(sys) && HasTask(s, sys.current)
    ensures T.Inv(Pruned(sys, s))
  {
    hide T.Frozen, HasTask, T.Apart;
    var sys' := Pruned(sys, s);
    assert forall t :: t in sys'.left ==>
      t in sys.left && sys'.left[t] == sys.left[t] && sys'.stacks[t] == sys.stacks[t];
  }

  lemma KillIsSound(k: Kernel, id: nat)
    requires Coupled(k) && Enabled(k, Kill(id))
    ensures Coupled(Kernel(Killed(k.table, id), Pruned(k.sys, Killed(k.table, id))))
  {
    hide T.Inv, Killed, L.Inv;
    var s' := Killed(k.table, id);
    L.StepKeepsInv(k.table, L.Kill(id));
    L.KillIsFifo(k.table, id);
    KilledTasks(k.table, id);
    assert HasTask(s', k.sys.current) by { assert s'.tasks[s'.current].id == k.sys.current; }
    PrunedKeepsInv(k.sys, s');
  }

  lemma KilledTasks(s: Table, victim: nat)
    ensures forall id: nat :: HasTask(Killed(s, victim), id) ==> HasTask(s, id)
  {
    if victim != 0 && FindLive(s.tasks, victim).Some? {
      var t := TerminatedAt(s, FindLive(s.tasks, victim).value);
      L.RetainedMembers(t.tasks);
      forall id: nat | HasTask(Killed(s, victim), id) ensures HasTask(s, id) {
        var i :| 0 <= i < |Killed(s, victim).tasks| && Killed(s, victim).tasks[i].id == id;
        assert Killed(s, victim).tasks[i] in t.tasks;
        var j :| 0 <= j < |t.tasks| && t.tasks[j].id == id;
        assert s.tasks[j].id == id;
      }
    }
  }

  lemma ComputeIsSound(k: Kernel, c: Cpu)
    requires Coupled(k) && Enabled(k, Compute(c))
    ensures Coupled(k.(sys := k.sys.(cpu := c)))
  {
    hide T.Frozen;
    T.LocalKeepsInv(k.sys, c);
  }

  // ---------- every event, every run ----------

  /** What the scheduler sees of an event. */
  ghost function TableStep(e: Event): Option<L.Step> {
    match e
    case Compute(_) => None
    case Tick(_) => Some(L.Tick)
    case Yield(_) => Some(L.Yield)
    case Exit(_) => Some(L.Exit)
    case Spawn(name, _, _, _) => Some(L.Spawn(name))
    case Kill(id) => Some(L.Kill(id))
  }

  ghost function Decision(s: Table, e: Event): (Table, Option<(nat, nat)>)
    requires s.current < |s.tasks| && (e.Tick? || e.Yield? || e.Exit?)
  {
    match e
    case Tick(_) => Ticked(s)
    case Yield(_) => Yielded(s)
    case Exit(_) => Exited(s)
  }

  lemma EventDecides(k: Kernel, e: Event)
    requires Coupled(k) && (e.Tick? || e.Yield? || e.Exit?) && Enabled(k, e)
    ensures CanCarryOut(k.sys, Decision(k.table, e), e.ret)
    ensures Coupled(CarriedOut(k.sys, Decision(k.table, e), e.ret))
  {
    hide Ticked, Yielded, Exited, T.Inv;
    TickedDecides(k.table);
    YieldedDecides(k.table);
    ExitedDecides(k.table);
    L.StepKeepsInv(k.table, TableStep(e).value);
    DecisionIsSound(k, Decision(k.table, e), e.ret);
  }

  ghost function Rescheduled(k: Kernel, e: Event): (k': Kernel)
    requires Coupled(k) && (e.Tick? || e.Yield? || e.Exit?) && Enabled(k, e)
    ensures Coupled(k')
  {
    EventDecides(k, e);
    CarriedOut(k.sys, Decision(k.table, e), e.ret)
  }

  ghost function Reaped(k: Kernel, id: nat): (k': Kernel)
    requires Coupled(k) && Enabled(k, Kill(id))
    ensures Coupled(k')
  {
    KillIsSound(k, id);
    Kernel(Killed(k.table, id), Pruned(k.sys, Killed(k.table, id)))
  }

  ghost function Computed(k: Kernel, c: Cpu): (k': Kernel)
    requires Coupled(k) && Enabled(k, Compute(c))
    ensures Coupled(k')
  {
    ComputeIsSound(k, c);
    k.(sys := k.sys.(cpu := c))
  }

  ghost function Born(k: Kernel, e: Event): (k': Kernel)
    requires Coupled(k) && e.Spawn? && Enabled(k, e)
    ensures Coupled(k')
  {
    NewIdIsFree(k);
    SpawnIsSound(k, e);
    SpawnedWith(k, e)
  }

  /** The system after one event: it never gets stuck, and table and processor stay in agreement. */
  ghost function After(k: Kernel, e: Event): (k': Kernel)
    requires Coupled(k) && Enabled(k, e)
    ensures Coupled(k')
  {
    hide Rescheduled, Reaped, Computed, Born, L.Inv, T.Inv, StacksMatch;
    match e
    case Compute(c) => Computed(k, c)
    case Kill(id) => Reaped(k, id)
    case Spawn(_, _, _, _) => Born(k, e)
    case _ => Rescheduled(k, e)
  }

  /** The scheduler's part of the system makes exactly the scheduler's step. */
  lemma TableFollows(k: Kernel, e: Event)
    requires Coupled(k) && Enabled(k, e)
    ensures After(k, e).table == match TableStep(e) case None => k.table case Some(step) => L.Next(k.table, step)
  {
    hide L.Inv, T.Inv, StacksMatch, Ticked, Yielded, Exited, Killed, Spawned;
  }

  ghost predicate EnabledRun(k: Kernel, events: seq<Event>)
    requires Coupled(k)
    decreases |events|
  {
    events == [] || (Enabled(k, events[0]) && EnabledRun(After(k, events[0]), events[1..]))
  }

  /** The system after any run of events: it never gets stuck, and stays in agreement. */
  ghost function AfterRun(k: Kernel, events: seq<Event>): (k': Kernel)
    requires Coupled(k) && EnabledRun(k, events)
    ensures Coupled(k')
    decreases |events|
  {
    if events == [] then k else AfterRun(After(k, events[0]), events[1..])
  }

  /** What the scheduler sees of a run. */
  ghost function TableSteps(events: seq<Event>): seq<L.Step> {
    if events == [] then []
    else (match TableStep(events[0]) case None => [] case Some(step) => [step]) + TableSteps(events[1..])
  }

  /** Every run of the system is a run of the scheduler. */
  lemma {:induction false} RunIsSchedulerRun(k: Kernel, events: seq<Event>)
    requires Coupled(k) && EnabledRun(k, events)
    ensures k.table.current < |k.table.tasks| && L.EnabledRun(k.table, TableSteps(events))
    ensures AfterRun(k, events).table == L.After(k.table, TableSteps(events))
    decreases |events|
  {
    if events != [] {
      hide L.Inv, T.Inv, StacksMatch, After, L.Next;
      var k' := After(k, events[0]);
      TableFollows(k, events[0]);
      RunIsSchedulerRun(k', events[1..]);
      InTable(k);
      if TableStep(events[0]).Some? {
        StepIsEnabled(k, events[0]);
        assert TableSteps(events)[0] == TableStep(events[0]).value;
        assert TableSteps(events)[1..] == TableSteps(events[1..]);
      } else {
        assert TableSteps(events) == TableSteps(events[1..]);
      }
    } else {
      InTable(k);
    }
  }

  lemma InTable(k: Kernel)
    requires Coupled(k)
    ensures k.table.current < |k.table.tasks|
  {
  }

  lemma StepIsEnabled(k: Kernel, e: Event)
    requires Coupled(k) && Enabled(k, e) && TableStep(e).Some?
    ensures k.table.current < |k.table.tasks| && L.Enabled(k.table, TableStep(e).value)
  {
  }

  /** The processor holds what task `id` left: its stack pointer, instruction pointer, callee-saved
      registers and everything on its stack above the stack pointer. */
  ghost predicate RunsAsLeft(k: Kernel, id: nat, snap: T.Snapshot, stack: T.Region) {
    && k.sys.current == id && id in k.sys.stacks && k.sys.stacks[id] == stack
    && k.sys.cpu.rsp == snap.rsp && k.sys.cpu.rip == snap.rip && CalleeOf(k.sys.cpu.gprs) == snap.callee
    && T.SameOn(T.Region(snap.rsp, stack.hi), snap.mem, k.sys.cpu.mem)
  }

  ghost predicate Resumes(k: Kernel, events: seq<Event>, id: nat, snap: T.Snapshot, stack: T.Region)
    requires Coupled(k) && EnabledRun(k, events)
    decreases |events|
  {
    || RunsAsLeft(k, id, snap, stack)
    || (events != [] && Resumes(After(k, events[0]), events[1..], id, snap, stack))
  }

  lemma SwitchKeepsOrResumes(k: Kernel, d: (Table, Option<(nat, nat)>), ret: Word, id: nat)
    requires Coupled(k) && CanCarryOut(k.sys, d, ret) && Coupled(CarriedOut(k.sys, d, ret)) && id in k.sys.left
    ensures KeepsOrResumes(k, CarriedOut(k.sys, d, ret), id)
  {
    hide SwitchCall, StacksMatch, T.Frozen, T.SameOn, L.Waiting;
    if d.1.Some? && L.CurrentId(d.0) == id {
      T.LandsAsLeft(k.sys, [], id, ret);
    }
  }

  /** A suspended task is left as it is, or has the processor as it left it. */
  ghost predicate KeepsOrResumes(k: Kernel, k': Kernel, id: nat)
    requires id in k.sys.left && id in k.sys.stacks
  {
    if k'.sys.current == id then RunsAsLeft(k', id, k.sys.left[id], k.sys.stacks[id])
    else
      && id in k'.sys.left && k'.sys.left[id] == k.sys.left[id]
      && id in k'.sys.stacks && k'.sys.stacks[id] == k.sys.stacks[id]
  }

  /** What an event does to a suspended task that it does not remove from the table. */
  lemma EventKeepsOrResumes(k: Kernel, e: Event, id: nat)
    requires Coupled(k) && Enabled(k, e) && id in k.sys.left && HasTask(After(k, e).table, id)
    ensures id in k.sys.stacks && KeepsOrResumes(k, After(k, e), id)
  {
    hide T.Frozen, T.Apart, T.SameOn, Killed, FirstFrame, RunsAsLeft, Decision, HasTask, SwitchCall, L.Waiting;
    match e {
      case Tick(ret) => EventDecides(k, e); SwitchKeepsOrResumes(k, Decision(k.table, e), ret, id);
      case Yield(ret) => EventDecides(k, e); SwitchKeepsOrResumes(k, Decision(k.table, e), ret, id);
      case Exit(ret) => EventDecides(k, e); SwitchKeepsOrResumes(k, Decision(k.table, e), ret, id);
      case Spawn(_, _, _, _) => NewIdIsFree(k);
      case _ =>
    }
  }

  lemma {:induction false} IdsAreTasks(ts: seq<Task>, lo: nat, hi: nat, id: nat)
    requires lo <= hi <= |ts| && id in L.RunnableIds(ts, lo, hi)
    ensures exists i :: lo <= i < hi && ts[i].id == id
    decreases hi - lo
  {
    if !(Runnable(ts[lo]) && ts[lo].id == id) {
      IdsAreTasks(ts, lo + 1, hi, id);
    }
  }

  lemma WaitingHasTask(s: Table, id: nat)
    requires s.current < |s.tasks| && id in L.Waiting(s)
    ensures HasTask(s, id)
  {
    if id in L.RunnableIds(s.tasks, 0, s.current) {
      IdsAreTasks(s.tasks, 0, s.current, id);
    } else {
      IdsAreTasks(s.tasks, s.current + 1, |s.tasks|, id);
    }
  }

  lemma CurrentIsNotWaiting(s: Table, id: nat)
    requires L.Inv(s) && id in L.Waiting(s)
    ensures id != L.CurrentId(s)
  {
    L.IdsAbsent(s.tasks, 0, s.current, L.CurrentId(s));
    L.IdsAbsent(s.tasks, s.current + 1, |s.tasks|, L.CurrentId(s));
  }

  ghost function Ticks(events: seq<Event>): nat {
    if events == [] then 0 else (if events[0].Tick? then 1 else 0) + Ticks(events[1..])
  }

  ghost function Spawns(events: seq<Event>): nat {
    if events == [] then 0 else (if events[0].Spawn? then 1 else 0) + Spawns(events[1..])
  }

  /** Events other than its own death never cost a waiting task its turn, and only spawns put it off. */
  lemma EventShortensWait(k: Kernel, e: Event, id: nat)
    requires Coupled(k) && Enabled(k, e) && id in L.Waiting(k.table) && e != Kill(id)
    ensures var k' := After(k, e);
            || L.CurrentId(k'.table) == id
            || (id in L.Waiting(k'.table)
                && L.Patience(L.Abs(k'.table), id) + (if e.Tick? then 1 else 0)
                <= L.Patience(L.Abs(k.table), id) + (if e.Spawn? then DEFAULT_QUANTUM else 0))
  {
    hide L.FifoStep, L.Patience, L.Next, L.Waiting, T.Inv, StacksMatch, After;
    TableFollows(k, e);
    if TableStep(e).Some? {
      var step := TableStep(e).value;
      L.PatienceIsPositive(k.table, id);
      L.StepIsFifo(k.table, step);
      L.StepShortensWait(L.Abs(k.table), step, k.table.nextId, L.Abs(L.Next(k.table, step)), id);
    }
  }

  /** Whatever the other tasks compute, and however they are spawned, tick, yield, exit and die: within
      its bounded wait, a waiting task is resumed with the registers, stack pointer and stack it left
      with. */
  lemma {:induction false} WaitingTaskResumes(k: Kernel, events: seq<Event>, id: nat, snap: T.Snapshot, stack: T.Region)
    requires Coupled(k) && EnabledRun(k, events)
    requires forall e :: e in events ==> e != Kill(id)
    requires id in L.Waiting(k.table)
    requires Ticks(events) >= L.Patience(L.Abs(k.table), id) + DEFAULT_QUANTUM * Spawns(events)
    requires id in k.sys.left && k.sys.left[id] == snap && id in k.sys.stacks && k.sys.stacks[id] == stack
    ensures Resumes(k, events, id, snap, stack)
    decreases |events|
  {
    hide L.Patience, L.Waiting, T.Inv, StacksMatch, L.Inv, After, RunsAsLeft, Enabled, HasTask;
    assert events != [] by { PatienceNeedsTicks(k, events, id); }
    var e := events[0];
    assert e in events && forall x :: x in events[1..] ==> x in events;
    var k' := After(k, e);
    EventShortensWait(k, e, id);
    StillInTable(k', id);
    EventKeepsOrResumes(k, e, id);
    if k'.sys.current == id {
      assert Resumes(k', events[1..], id, snap, stack);
    } else {
      WaitingTaskResumes(k', events[1..], id, snap, stack);
    }
  }

  /** The shortest case: the tick that ends the quantum resumes the head of the queue. */
  lemma LastTickResumesNext(k: Kernel, ret: Word, id: nat)
    requires Coupled(k) && HasRoom(k.sys) && k.table.tasks[k.table.current].quantum == 1
    requires L.Waiting(k.table) != [] && L.Waiting(k.table)[0] == id
    ensures id in k.sys.left && id in k.sys.stacks
    ensures RunsAsLeft(After(k, Tick(ret)), id, k.sys.left[id], k.sys.stacks[id])
  {
    hide L.Waiting, After, RunsAsLeft, T.Frozen, Switched;
    L.TickIsFifo(k.table);
    TableFollows(k, Tick(ret));
    var k' := After(k, Tick(ret));
    assert L.CurrentId(k'.table) == id;
    WaitingHasTask(k.table, id);
    CurrentIsNotWaiting(k.table, id);
    StillInTable(k', id);
    EventKeepsOrResumes(k, Tick(ret), id);
  }

  lemma PatienceNeedsTicks(k: Kernel, events: seq<Event>, id: nat)
    requires Coupled(k) && id in L.Waiting(k.table) && Ticks(events) >= L.Patience(L.Abs(k.table), id)
    ensures events != []
  {
    L.PatienceIsPositive(k.table, id);
  }

  lemma StillInTable(k: Kernel, id: nat)
    requires Coupled(k) && (L.CurrentId(k.table) == id || id in L.Waiting(k.table))
    ensures k.table.current < |k.table.tasks| && k.sys.current == L.CurrentId(k.table) && HasTask(k.table, id)
  {
    hide T.Inv, L.Waiting;
    if L.CurrentId(k.table) == id {
      assert k.table.tasks[k.table.current].id == id;
    } else {
      WaitingHasTask(k.table, id);
    }
  }

  /** The kernel starts in agreement: task 0 runs on the boot stack, and nobody else has one. */
  lemma BootIsCoupled(cpu: Cpu, contexts: Contexts, stack: T.Region)
    ensures Coupled(Kernel(L.BOOT, T.Sys(cpu, 0, contexts, map[0 := stack], map[])))
  {
    assert L.BOOT.tasks[0].id == 0;
  }

  // ---------- a task interrupted by the timer ----------

  /** The running task has room for the frames of the handler and of a switch. */
  ghost predicate CanBeInterrupted(k: Kernel)
    requires Coupled(k)
  {
    var stack := k.sys.stacks[k.sys.current];
    0 <= k.sys.cpu.rsp <= stack.hi && stack.lo <= Aligned(k.sys.cpu.rsp) - 160
  }

  /** The timer interrupt has been delivered and the fifteen registers pushed. */
  ghost function Interrupted(k: Kernel): (k': Kernel)
    requires Coupled(k) && CanBeInterrupted(k)
    ensures Coupled(k') && k' == k.(sys := k.sys.(cpu := HandlerEntered(k.sys.cpu)))
  {
    T.HandlerStaysInside(k.sys);
    Computed(k, HandlerEntered(k.sys.cpu))
  }

  /** The handler has come to the switch with `c`, its frame untouched. */
  ghost predicate HandlerWorks(k: Kernel, c: Cpu)
    requires Coupled(k) && CanBeInterrupted(k)
  {
    var sys := Interrupted(k).sys;
    T.RunsBelow(sys, c, sys.cpu.rsp) && HasRoom(sys.(cpu := c))
  }

  /** ... and the scheduler has decided. */
  ghost function TimerTicked(k: Kernel, c: Cpu, ret: Word): (k': Kernel)
    requires Coupled(k) && CanBeInterrupted(k) && HandlerWorks(k, c)
    ensures Coupled(k')
  {
    After(Computed(Interrupted(k), c), Tick(ret))
  }

  /** Task `id` runs again, and however its handler goes on and leaves, the task finds all fifteen
      registers, its flags, stack pointer, instruction pointer and live stack as `was`. */
  ghost predicate Recovers(k: Kernel, id: nat, was: Cpu, base: int, stack: T.Region) {
    && k.sys.current == id && id in k.sys.stacks && k.sys.stacks[id] == stack
    && forall c: Cpu :: T.RunsBelow(k.sys, c, base) && c.rsp == base ==>
         HandlerLeft(c) == was.(mem := c.mem) && T.SameOn(T.Region(was.rsp, stack.hi), was.mem, c.mem)
  }

  ghost predicate ComesBack(k: Kernel, events: seq<Event>, id: nat, was: Cpu, base: int, stack: T.Region)
    requires Coupled(k) && EnabledRun(k, events)
    decreases |events|
  {
    || Recovers(k, id, was, base, stack)
    || (events != [] && ComesBack(After(k, events[0]), events[1..], id, was, base, stack))
  }

  /** With the handler's frame still in place the task recovers. */
  lemma FrameRecovers(k: Kernel, id: nat, was: Cpu, stack: T.Region)
    requires k.sys.current == id && id in k.sys.stacks && k.sys.stacks[id] == stack && 0 <= was.rsp <= stack.hi
    requires T.SameOn(T.Region(HandlerEntered(was).rsp, stack.hi), HandlerEntered(was).mem, k.sys.cpu.mem)
    ensures Recovers(k, id, was, HandlerEntered(was).rsp, stack)
  {
    hide PushAll, HandlerEntered, HandlerLeft;
    var entered := HandlerEntered(was);
    T.HandlerStores(was);
    forall c: Cpu | T.RunsBelow(k.sys, c, entered.rsp) && c.rsp == entered.rsp
      ensures HandlerLeft(c) == was.(mem := c.mem) && T.SameOn(T.Region(was.rsp, stack.hi), was.mem, c.mem)
    {
      forall a | entered.rsp <= a < stack.hi ensures Read(c.mem, a) == Read(entered.mem, a) {
        assert T.Inside(T.Region(entered.rsp, stack.hi), a);
      }
      HandlerRoundTrip(was, c);
    }
  }

  lemma ResumedRecovers(k: Kernel, id: nat, was: Cpu, snap: T.Snapshot, stack: T.Region)
    requires RunsAsLeft(k, id, snap, stack) && 0 <= was.rsp <= stack.hi && snap.rsp <= HandlerEntered(was).rsp
    requires T.SameOn(T.Region(HandlerEntered(was).rsp, stack.hi), HandlerEntered(was).mem, snap.mem)
    ensures Recovers(k, id, was, HandlerEntered(was).rsp, stack)
  {
    hide HandlerEntered, Recovers;
    var frame := T.Region(HandlerEntered(was).rsp, stack.hi);
    forall a | T.Inside(frame, a) ensures Read(HandlerEntered(was).mem, a) == Read(k.sys.cpu.mem, a) {
      assert T.Inside(T.Region(snap.rsp, stack.hi), a);
    }
    FrameRecovers(k, id, was, stack);
  }

  lemma {:induction false} ResumingComesBack(k: Kernel, events: seq<Event>, id: nat, was: Cpu,
                                             snap: T.Snapshot, stack: T.Region)
    requires Coupled(k) && EnabledRun(k, events) && Resumes(k, events, id, snap, stack)
    requires 0 <= was.rsp <= stack.hi && snap.rsp <= HandlerEntered(was).rsp
    requires T.SameOn(T.Region(HandlerEntered(was).rsp, stack.hi), HandlerEntered(was).mem, snap.mem)
    ensures ComesBack(k, events, id, was, HandlerEntered(was).rsp, stack)
    decreases |events|
  {
    hide HandlerEntered, Recovers, RunsAsLeft, After, Coupled, Enabled;
    if RunsAsLeft(k, id, snap, stack) {
      ResumedRecovers(k, id, was, snap, stack);
    } else {
      ResumingComesBack(After(k, events[0]), events[1..], id, was, snap, stack);
    }
  }

  /** How the running task left, had it been switched away from here. */
  ghost function LeftAs(c: Cpu, ret: Word): T.Snapshot {
    T.Snapshot(CalleeOf(c.gprs), c.rsp, ret, c.mem)
  }

  /** A tick leaves the running task alone, or suspends it at the tail of the queue. */
  lemma TickSuspends(k: Kernel, ret: Word)
    requires Coupled(k) && HasRoom(k.sys)
    ensures var k', id := After(k, Tick(ret)), k.sys.current;
            if k'.sys.current == id then k'.sys == k.sys
            else
              && id in k'.sys.left && k'.sys.left[id] == LeftAs(k.sys.cpu, ret)
              && id in k.sys.stacks && id in k'.sys.stacks && k'.sys.stacks[id] == k.sys.stacks[id]
              && TailWaits(k'.table, id, |WaitingIn(k)|)
  {
    hide T.Frozen, SwitchCall, L.Waiting, StacksMatch, Ticked;
    var k', id := After(k, Tick(ret)), k.sys.current;
    TickedDecides(k.table);
    EventDecides(k, Tick(ret));
    if k'.sys.current != id {
      TickEnqueues(k.table);
    }
  }

  ghost function WaitingIn(k: Kernel): seq<nat>
    requires Coupled(k)
  {
    L.Waiting(k.table)
  }

  /** Task `id` waits its turn behind fewer than `n` others. */
  ghost predicate TailWaits(s: Table, id: nat, n: nat) {
    s.current < |s.tasks| && id in L.Waiting(s) && L.Patience(L.Abs(s), id) <= DEFAULT_QUANTUM * n
  }

  lemma TickEnqueues(s: Table)
    requires L.Inv(s) && L.CurrentId(Ticked(s).0) != L.CurrentId(s)
    ensures TailWaits(Ticked(s).0, L.CurrentId(s), |L.Waiting(s)|)
  {
    L.StepKeepsInv(s, L.Tick);
    L.TickIsFifo(s);
    hide L.Waiting, Ticked;
    var f' := L.Abs(Ticked(s).0);
    assert f' == L.Rotated(L.Abs(s));
    assert f'.queue[|f'.queue| - 1] == L.CurrentId(s);
    L.AheadIsWithin(f'.queue, L.CurrentId(s));
  }

  /** A task that the timer interrupts anywhere loses nothing: whatever the scheduler decides, within
      ten ticks for every task that waited before it, and ten for every one spawned meanwhile, it runs
      again and gets back all fifteen registers, its flags, both pointers and its live stack, however
      the others compute, spawn, tick, yield, exit and die. */
  lemma {:induction false} PreemptedTaskRecovers(k: Kernel, inHandler: Cpu, ret: Word, events: seq<Event>)
    requires Coupled(k) && CanBeInterrupted(k) && HandlerWorks(k, inHandler)
    requires EnabledRun(TimerTicked(k, inHandler, ret), events)
    requires forall e :: e in events ==> e != Kill(k.sys.current)
    requires Ticks(events) >= DEFAULT_QUANTUM * |WaitingIn(k)| + DEFAULT_QUANTUM * Spawns(events)
    ensures k.sys.current in k.sys.stacks
    ensures ComesBack(TimerTicked(k, inHandler, ret), events, k.sys.current, k.sys.cpu,
                      HandlerEntered(k.sys.cpu).rsp, k.sys.stacks[k.sys.current])
  {
    hide HandlerEntered, L.Patience, L.Waiting, T.Frozen, StacksMatch, After, Recovers, EnabledRun, Resumes, L.Inv;
    var id, was, stack := k.sys.current, k.sys.cpu, k.sys.stacks[k.sys.current];
    var worked := Computed(Interrupted(k), inHandler);
    var k' := TimerTicked(k, inHandler, ret);
    TickSuspends(worked, ret);
    if k'.sys.current == id {
      FrameRecovers(k', id, was, stack);
    } else {
      WaitingTaskResumes(k', events, id, LeftAs(inHandler, ret), stack);
      ResumingComesBack(k', events, id, was, LeftAs(inHandler, ret), stack);
    }
  }

  /** Its shortest instance: nobody waits, and the handler comes straight to the scheduler. */
  lemma TickAloneRecovers(k: Kernel, ret: Word)
    requires Coupled(k) && WaitingIn(k) == [] && CanBeInterrupted(k)
    requires k.sys.stacks[k.sys.current].lo <= Aligned(k.sys.cpu.rsp) - 216
    ensures HandlerWorks(k, HandlerEntered(k.sys.cpu)) && k.sys.current in k.sys.stacks
    ensures Recovers(TimerTicked(k, HandlerEntered(k.sys.cpu), ret), k.sys.current, k.sys.cpu,
                     HandlerEntered(k.sys.cpu).rsp, k.sys.stacks[k.sys.current])
  {
    hide HandlerEntered, L.Waiting, T.Frozen, StacksMatch, After, Recovers, T.RunsBelow;
    var entered := HandlerEntered(k.sys.cpu);
    T.HandlerStaysInside(k.sys);
    T.NothingDone(Interrupted(k).sys, entered.rsp);
    PreemptedTaskRecovers(k, entered, ret, []);
  }
}
