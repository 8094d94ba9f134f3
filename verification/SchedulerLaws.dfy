/** What the scheduler keeps over every run, and the FIFO queue its table implements. */
module SchedulerLaws {
  import opened Wrappers
  import opened Scheduler

  // ---------- safety ----------

  ghost predicate Inv(s: Table) {
    && s.current < |s.tasks|
    && (forall i :: 0 <= i < |s.tasks| ==> (s.tasks[i].state == Running <==> i == s.current))
    && 1 <= s.tasks[s.current].quantum
    && (forall i :: 0 <= i < |s.tasks| ==> s.tasks[i].quantum <= DEFAULT_QUANTUM && s.tasks[i].id < s.nextId)
    && (forall i, j :: 0 <= i < j < |s.tasks| ==> s.tasks[i].id < s.tasks[j].id)
    && s.tasks[0].id == 0 && s.tasks[0].state != Terminated
  }

  datatype Step = Spawn(name: string) | Tick | Yield | Exit | Kill(id: nat)

  ghost function CurrentId(s: Table): nat
    requires s.current < |s.tasks|
  {
    s.tasks[s.current].id
  }

  /** The kernel task does not exit, and no task kills itself. */
  ghost predicate Enabled(s: Table, step: Step)
    requires s.current < |s.tasks|
  {
    match step
    case Exit => CurrentId(s) != 0
    case Kill(id) => id == 0 || id != CurrentId(s)
    case _ => true
  }

  ghost function Next(s: Table, step: Step): Table
    requires s.current < |s.tasks|
  {
    match step
    case Spawn(name) => Spawned(s, name)
    case Tick => Ticked(s).0
    case Yield => Yielded(s).0
    case Exit => Exited(s).0
    case Kill(id) => Killed(s, id)
  }

  /** How many slots behind `cur` slot `j` lies, going round a table of `n`. */
  ghost function Distance(n: nat, cur: nat, j: nat): int {
    if j > cur then j - cur else j + n - cur
  }

  ghost predicate NoneWithin(tasks: seq<Task>, cur: nat, d: int) {
    forall i :: 0 <= i < |tasks| && Distance(|tasks|, cur, i) < d ==> !Runnable(tasks[i])
  }

  ghost predicate IsNearest(tasks: seq<Task>, cur: nat, j: nat) {
    && cur < |tasks| && j < |tasks| && j != cur && Runnable(tasks[j])
    && NoneWithin(tasks, cur, Distance(|tasks|, cur, j))
  }

  /** The search picks the nearest runnable task, and gives up exactly when no other is runnable. */
  lemma {:induction false} SelectionIsExact(tasks: seq<Task>, cur: nat, d: nat)
    requires cur < |tasks| && 1 <= d <= |tasks| && NoneWithin(tasks, cur, d)
    ensures match NextRunnable(tasks, cur, d)
            case Some(j) => IsNearest(tasks, cur, j)
            case None => NoneWithin(tasks, cur, |tasks|)
    decreases |tasks| - d
  {
    if d < |tasks| {
      assert Distance(|tasks|, cur, Around(|tasks|, cur + d)) == d;
      if !Runnable(tasks[Around(|tasks|, cur + d)]) {
        assert NoneWithin(tasks, cur, d + 1);
        SelectionIsExact(tasks, cur, d + 1);
      }
    }
  }

  // ---------- the table is a FIFO queue ----------

  /** What a task contributes to the queue. */
  ghost function Entry(t: Task): seq<nat> {
    if Runnable(t) then [t.id] else []
  }

  /** Ids of the runnable tasks in slots `lo` to `hi`, in table order. */
  ghost function RunnableIds(ts: seq<Task>, lo: nat, hi: nat): seq<nat>
    requires lo <= hi <= |ts|
    decreases hi - lo
  {
    if lo == hi then [] else Entry(ts[lo]) + RunnableIds(ts, lo + 1, hi)
  }

  /** The runnable tasks other than the current one, in the order the table is searched. */
  ghost function Waiting(s: Table): seq<nat>
    requires s.current < |s.tasks|
  {
    RunnableIds(s.tasks, s.current + 1, |s.tasks|) + RunnableIds(s.tasks, 0, s.current)
  }

  lemma IdsStep(ts: seq<Task>, lo: nat, hi: nat)
    requires lo <= hi <= |ts|
    ensures RunnableIds(ts, lo, hi) == if lo == hi then [] else Entry(ts[lo]) + RunnableIds(ts, lo + 1, hi)
  {
  }

  lemma Regroup(a: seq<nat>, b: seq<nat>, c: seq<nat>)
    ensures (a + b) + c == a + (b + c) && a + [] == a && [] + a == a
  {
  }

  lemma {:induction false} IdsSplit(ts: seq<Task>, lo: nat, mid: nat, hi: nat)
    requires lo <= mid <= hi <= |ts|
    ensures RunnableIds(ts, lo, hi) == RunnableIds(ts, lo, mid) + RunnableIds(ts, mid, hi)
    decreases mid - lo
  {
    hide RunnableIds, Entry;
    IdsStep(ts, lo, mid);
    if lo < mid {
      IdsStep(ts, lo, hi);
      IdsSplit(ts, lo + 1, mid, hi);
      Regroup(Entry(ts[lo]), RunnableIds(ts, lo + 1, mid), RunnableIds(ts, mid, hi));
    } else {
      Regroup(RunnableIds(ts, mid, hi), [], []);
    }
  }

  lemma {:induction false} IdsFrame(a: seq<Task>, b: seq<Task>, lo: nat, hi: nat)
    requires lo <= hi <= |a| && hi <= |b|
    requires forall i :: lo <= i < hi ==> Entry(a[i]) == Entry(b[i])
    ensures RunnableIds(a, lo, hi) == RunnableIds(b, lo, hi)
    decreases hi - lo
  {
    hide RunnableIds, Entry;
    IdsStep(a, lo, hi);
    IdsStep(b, lo, hi);
    if lo < hi {
      IdsFrame(a, b, lo + 1, hi);
    }
  }

  lemma {:induction false} IdsNone(ts: seq<Task>, lo: nat, hi: nat)
    requires lo <= hi <= |ts|
    requires forall i :: lo <= i < hi ==> !Runnable(ts[i])
    ensures RunnableIds(ts, lo, hi) == []
    decreases hi - lo
  {
    hide RunnableIds, Runnable;
    IdsStep(ts, lo, hi);
    if lo < hi {
      IdsNone(ts, lo + 1, hi);
    }
  }

  lemma IdsAt(ts: seq<Task>, lo: nat, i: nat, hi: nat)
    requires lo <= i < hi <= |ts|
    ensures RunnableIds(ts, lo, hi) == RunnableIds(ts, lo, i) + (Entry(ts[i]) + RunnableIds(ts, i + 1, hi))
  {
    hide RunnableIds, Entry;
    IdsSplit(ts, lo, i, hi);
    IdsStep(ts, i, hi);
  }

  /** A switch takes the head of the queue; the task it leaves goes to the tail if it can still
      run. Without a head there is no switch. */
  lemma SwitchIsFifo(s: Table)
    requires s.current < |s.tasks|
    ensures Switched(s).1.Some? <==> Waiting(s) != []
    ensures var s' := Switched(s).0;
            if Waiting(s) == [] then s' == WithQuantum(s, s.current, DEFAULT_QUANTUM) && Waiting(s') == []
            else
              && CurrentId(s') == Waiting(s)[0] && s'.tasks[s'.current].quantum == DEFAULT_QUANTUM
              && Waiting(s') == Waiting(s)[1..] + if Runnable(s.tasks[s.current]) then [CurrentId(s)] else []
  {
    hide Waiting;
    SelectionIsExact(s.tasks, s.current, 1);
    match NextRunnable(s.tasks, s.current, 1) {
      case None => NobodyWaits(s);
      case Some(j) =>
        if s.current < j { SwitchForward(s, j); } else { SwitchBackward(s, j); }
    }
  }

  lemma NobodyWaits(s: Table)
    requires s.current < |s.tasks| && NoneWithin(s.tasks, s.current, |s.tasks|)
    ensures Waiting(s) == [] && Waiting(WithQuantum(s, s.current, DEFAULT_QUANTUM)) == []
  {
    hide RunnableIds;
    var t := WithQuantum(s, s.current, DEFAULT_QUANTUM);
    assert forall i :: 0 <= i < |s.tasks| && i != s.current ==> Distance(|s.tasks|, s.current, i) < |s.tasks|;
    IdsNone(s.tasks, 0, s.current);
    IdsNone(s.tasks, s.current + 1, |s.tasks|);
    IdsNone(t.tasks, 0, s.current);
    IdsNone(t.tasks, s.current + 1, |s.tasks|);
  }

  /** The queue is known slot by slot: `front` and `back` wait behind and before the current task. */
  lemma HeadLeaves(id: nat, front: seq<nat>, back: seq<nat>, last: seq<nat>)
    ensures (([] + ([id] + front)) + back) == [id] + (front + back)
    ensures ([id] + (front + back))[1..] == front + back
    ensures front + (back + (last + [])) == (front + back) + last
  {
  }

  /** The slots the search passed over hold nobody who could run. */
  lemma NearestSkips(ts: seq<Task>, cur: nat, j: nat)
    requires IsNearest(ts, cur, j)
    ensures Runnable(ts[j])
    ensures cur < j ==> forall i :: cur < i < j ==> !Runnable(ts[i])
    ensures j < cur ==> forall i :: 0 <= i < |ts| && (i < j || cur < i) ==> !Runnable(ts[i])
  {
    hide Runnable;
    forall i | 0 <= i < |ts| && (if cur < j then cur < i < j else i < j || cur < i) ensures !Runnable(ts[i]) {
      assert Distance(|ts|, cur, i) < Distance(|ts|, cur, j);
    }
  }

  /** A switch changes nothing but the states of two tasks and the quantum of one. */
  lemma HandedOverSlots(s: Table, cur: nat, j: nat)
    requires cur < |s.tasks| && j < |s.tasks| && cur != j
    ensures var s' := HandedOver(s, cur, j);
            && |s'.tasks| == |s.tasks| && s'.current == j && s'.nextId == s.nextId
            && (forall k :: 0 <= k < |s.tasks| && k != cur && k != j ==> s'.tasks[k] == s.tasks[k])
            && s'.tasks[j] == s.tasks[j].(state := Running, quantum := DEFAULT_QUANTUM)
            && s'.tasks[cur] == s.tasks[cur].(state := s'.tasks[cur].state)
            && Entry(s'.tasks[cur]) == Entry(s.tasks[cur])
  {
  }

  lemma SwitchForward(s: Table, j: nat)
    requires IsNearest(s.tasks, s.current, j) && s.current < j
    ensures Waiting(s) != [] && Waiting(s)[0] == s.tasks[j].id
    ensures Waiting(HandedOver(s, s.current, j)) == Waiting(s)[1..] + Entry(s.tasks[s.current])
  {
    hide RunnableIds, NoneWithin, HandedOver, Runnable;
    var ts, cur, n := s.tasks, s.current, |s.tasks|;
    var ts' := HandedOver(s, cur, j).tasks;
    HandedOverSlots(s, cur, j);
    NearestSkips(ts, cur, j);
    IdsAt(ts, cur + 1, j, n);
    IdsNone(ts, cur + 1, j);
    IdsAt(ts', 0, cur, j);
    IdsNone(ts', cur + 1, j);
    IdsFrame(ts, ts', j + 1, n);
    IdsFrame(ts, ts', 0, cur);
    assert Entry(ts[j]) == [ts[j].id];
    HeadLeaves(ts[j].id, RunnableIds(ts, j + 1, n), RunnableIds(ts, 0, cur), Entry(ts[cur]));
  }

  lemma SwitchBackward(s: Table, j: nat)
    requires IsNearest(s.tasks, s.current, j) && j < s.current
    ensures Waiting(s) != [] && Waiting(s)[0] == s.tasks[j].id
    ensures Waiting(HandedOver(s, s.current, j)) == Waiting(s)[1..] + Entry(s.tasks[s.current])
  {
    hide RunnableIds, NoneWithin, HandedOver, Runnable;
    var ts, cur, n := s.tasks, s.current, |s.tasks|;
    var ts' := HandedOver(s, cur, j).tasks;
    HandedOverSlots(s, cur, j);
    NearestSkips(ts, cur, j);
    IdsNone(ts, cur + 1, n);
    IdsAt(ts, 0, j, cur);
    IdsNone(ts, 0, j);
    IdsAt(ts', j + 1, cur, n);
    IdsNone(ts', cur + 1, n);
    IdsNone(ts', 0, j);
    IdsFrame(ts, ts', j + 1, cur);
    assert Entry(ts[j]) == [ts[j].id];
    var rest, own := RunnableIds(ts, j + 1, cur), Entry(ts[cur]);
    Nothing(own);
    Nothing(rest + own);
    Nothing([ts[j].id] + rest);
    assert ([ts[j].id] + rest)[1..] == rest;
  }

  lemma Nothing(a: seq<nat>)
    ensures [] + a == a && a + [] == a
  {
  }

  // ---------- the specification: a running task and a queue ----------

  /** `alone`: the table holds no other task, not even a dead one. */
  datatype Fifo = Fifo(running: nat, quantum: nat, queue: seq<nat>, alone: bool)

  ghost function Abs(s: Table): Fifo
    requires s.current < |s.tasks|
  {
    Fifo(CurrentId(s), s.tasks[s.current].quantum, Waiting(s), |s.tasks| == 1)
  }

  /** The head of the queue runs a fresh quantum, the running task goes to the tail. */
  ghost function Rotated(f: Fifo): Fifo
    requires f.queue != []
  {
    f.(running := f.queue[0], quantum := DEFAULT_QUANTUM, queue := f.queue[1..] + [f.running])
  }

  ghost function Without(queue: seq<nat>, id: nat): seq<nat> {
    if queue == [] then []
    else if queue[0] == id then Without(queue[1..], id)
    else [queue[0]] + Without(queue[1..], id)
  }

  /** What each step may do to the queue. */
  ghost predicate FifoStep(f: Fifo, step: Step, newId: nat, f': Fifo) {
    match step
    case Spawn(_) =>
      && f'.running == f.running && f'.quantum == f.quantum && !f'.alone
      && exists k :: 0 <= k <= |f.queue| && f'.queue == f.queue[..k] + [newId] + f.queue[k..]
    case Tick =>
      if f.queue == [] && f.alone then f' == f
      else if f.quantum > 1 then f' == f.(quantum := f.quantum - 1)
      else f' == if f.queue == [] then f.(quantum := DEFAULT_QUANTUM) else Rotated(f)
    case Yield =>
      if f.queue == [] then f' == if f.alone then f else f.(quantum := DEFAULT_QUANTUM)
      else f' == Rotated(f)
    case Exit =>
      f.queue != [] && f' == f.(running := f.queue[0], quantum := DEFAULT_QUANTUM, queue := f.queue[1..])
    case Kill(id) =>
      if id == 0 || id !in f.queue then f' == f
      else f' == f.(queue := Without(f.queue, id), alone := Without(f.queue, id) == [])
  }

  lemma QueueNeedsTable(s: Table)
    requires s.current < |s.tasks| <= 1
    ensures Waiting(s) == []
  {
  }

  lemma YieldIsFifo(s: Table)
    requires Inv(s)
    ensures FifoStep(Abs(s), Yield, s.nextId, Abs(Yielded(s).0))
  {
    if |s.tasks| <= 1 {
      QueueNeedsTable(s);
    } else {
      SwitchIsFifo(s);
    }
  }

  lemma QuantumIsNoMatter(s: Table, q: nat)
    requires s.current < |s.tasks|
    ensures Waiting(WithQuantum(s, s.current, q)) == Waiting(s)
    ensures CurrentId(WithQuantum(s, s.current, q)) == CurrentId(s)
  {
    var t := WithQuantum(s, s.current, q);
    IdsFrame(s.tasks, t.tasks, 0, s.current);
    IdsFrame(s.tasks, t.tasks, s.current + 1, |s.tasks|);
  }

  lemma TickIsFifo(s: Table)
    requires Inv(s)
    ensures FifoStep(Abs(s), Tick, s.nextId, Abs(Ticked(s).0))
  {
    hide Waiting;
    var q := s.tasks[s.current].quantum;
    if |s.tasks| <= 1 {
      QueueNeedsTable(s);
    } else if q > 1 {
      QuantumIsNoMatter(s, q - 1);
    } else {
      QuantumIsNoMatter(s, 0);
      SwitchIsFifo(WithQuantum(s, s.current, 0));
    }
  }

  /** The kernel task waits whenever another task runs. */
  lemma KernelWaits(s: Table)
    requires Inv(s) && CurrentId(s) != 0
    ensures Waiting(s) != [] && |s.tasks| > 1
  {
    IdsAt(s.tasks, 0, 0, s.current);
  }

  /** An exiting task always finds another one to switch to, so it never comes back. */
  lemma ExitIsFifo(s: Table)
    requires Inv(s) && CurrentId(s) != 0
    ensures Exited(s).1.Some?
    ensures FifoStep(Abs(s), Exit, s.nextId, Abs(Exited(s).0))
  {
    var t := TerminatedAt(s, s.current);
    KernelWaits(s);
    IdsFrame(s.tasks, t.tasks, 0, s.current);
    IdsFrame(s.tasks, t.tasks, s.current + 1, |s.tasks|);
    SwitchIsFifo(t);
  }

  lemma SpawnIsFifo(s: Table, name: string)
    requires Inv(s)
    ensures FifoStep(Abs(s), Spawn(name), s.nextId, Abs(Spawned(s, name)))
  {
    hide RunnableIds, Waiting, FifoStep;
    var n := |s.tasks|;
    var front, back := RunnableIds(s.tasks, s.current + 1, n), RunnableIds(s.tasks, 0, s.current);
    SpawnedQueue(s, name);
    InsertedBetween(front, back, s.nextId);
    FifoInserts(Abs(s), name, s.nextId, Abs(Spawned(s, name)), |front|);
  }

  lemma SpawnedQueue(s: Table, name: string)
    requires s.current < |s.tasks|
    ensures var front := RunnableIds(s.tasks, s.current + 1, |s.tasks|);
            var back := RunnableIds(s.tasks, 0, s.current);
            Waiting(s) == front + back && Waiting(Spawned(s, name)) == front + [s.nextId] + back
  {
    hide RunnableIds;
    var t, n := Spawned(s, name), |s.tasks|;
    IdsFrame(s.tasks, t.tasks, 0, s.current);
    IdsFrame(s.tasks, t.tasks, s.current + 1, n);
    IdsAt(t.tasks, s.current + 1, n, n + 1);
    IdsStep(t.tasks, n + 1, n + 1);
    Nothing([s.nextId]);
  }

  lemma FifoInserts(f: Fifo, name: string, newId: nat, f': Fifo, k: nat)
    requires f'.running == f.running && f'.quantum == f.quantum && !f'.alone && k <= |f.queue|
    requires f'.queue == f.queue[..k] + [newId] + f.queue[k..]
    ensures FifoStep(f, Spawn(name), newId, f')
  {
  }

  lemma InsertedBetween(front: seq<nat>, back: seq<nat>, id: nat)
    ensures front + [id] + back == (front + back)[..|front|] + [id] + (front + back)[|front|..]
  {
  }

  // ---------- killing another task ----------

  lemma WithoutStep(queue: seq<nat>, id: nat)
    requires queue != []
    ensures Without(queue, id) == (if queue[0] == id then [] else [queue[0]]) + Without(queue[1..], id)
  {
  }

  lemma {:induction false} WithoutConcat(a: seq<nat>, b: seq<nat>, id: nat)
    ensures Without(a + b, id) == Without(a, id) + Without(b, id)
  {
    if a == [] {
      assert a + b == b;
    } else {
      hide Without;
      WithoutStep(a, id);
      WithoutStep(a + b, id);
      WithoutConcat(a[1..], b, id);
      assert (a + b)[0] == a[0] && (a + b)[1..] == a[1..] + b;
      Regroup(if a[0] == id then [] else [a[0]], Without(a[1..], id), Without(b, id));
    }
  }

  lemma {:induction false} WithoutAbsent(queue: seq<nat>, id: nat)
    requires id !in queue
    ensures Without(queue, id) == queue
  {
    if queue != [] {
      WithoutAbsent(queue[1..], id);
    }
  }

  lemma {:induction false} IdsAbsent(ts: seq<Task>, lo: nat, hi: nat, id: nat)
    requires lo <= hi <= |ts|
    requires forall i :: lo <= i < hi ==> id !in Entry(ts[i])
    ensures id !in RunnableIds(ts, lo, hi)
    decreases hi - lo
  {
    hide RunnableIds, Entry;
    IdsStep(ts, lo, hi);
    if lo < hi {
      IdsAbsent(ts, lo + 1, hi, id);
    }
  }

  ghost predicate Increasing(ts: seq<Task>) {
    forall i, j :: 0 <= i < j < |ts| ==> ts[i].id < ts[j].id
  }

  lemma {:induction false} IdsTerminated(ts: seq<Task>, i: nat, lo: nat, hi: nat)
    requires lo <= hi <= |ts| && i < |ts| && Increasing(ts)
    ensures RunnableIds(ts[i := ts[i].(state := Terminated)], lo, hi) == Without(RunnableIds(ts, lo, hi), ts[i].id)
    decreases hi - lo
  {
    hide RunnableIds, Entry;
    var ts' := ts[i := ts[i].(state := Terminated)];
    IdsStep(ts, lo, hi);
    IdsStep(ts', lo, hi);
    if lo < hi {
      IdsTerminated(ts, i, lo + 1, hi);
      EntryTerminated(ts, i, lo);
      WithoutConcat(Entry(ts[lo]), RunnableIds(ts, lo + 1, hi), ts[i].id);
    }
  }

  lemma EntryTerminated(ts: seq<Task>, i: nat, k: nat)
    requires i < |ts| && k < |ts| && Increasing(ts)
    ensures Entry(ts[i := ts[i].(state := Terminated)][k]) == Without(Entry(ts[k]), ts[i].id)
  {
    assert i != k ==> ts[i].id != ts[k].id;
    assert Runnable(ts[k]) ==> Entry(ts[k])[1..] == [];
  }

  lemma {:induction false} RetainedMembers(ts: seq<Task>)
    ensures forall t :: t in Retained(ts) ==> t in ts && (t.id == 0 || t.state != Terminated)
    ensures |Retained(ts)| <= |ts|
  {
    if ts != [] {
      RetainedMembers(ts[1..]);
    }
  }

  lemma {:induction false} RetainedIncreasing(ts: seq<Task>)
    requires Increasing(ts)
    ensures Increasing(Retained(ts))
  {
    if ts != [] {
      RetainedIncreasing(ts[1..]);
      RetainedMembers(ts[1..]);
      var rest := Retained(ts[1..]);
      forall k | 0 <= k < |rest| ensures ts[0].id < rest[k].id {
        assert rest[k] in ts[1..];
      }
    }
  }

  lemma {:induction false} IdsShift(a: seq<Task>, b: seq<Task>, lo: nat, hi: nat)
    requires lo <= hi <= |b|
    ensures RunnableIds(a + b, |a| + lo, |a| + hi) == RunnableIds(b, lo, hi)
    decreases hi - lo
  {
    hide RunnableIds, Entry;
    IdsStep(a + b, |a| + lo, |a| + hi);
    IdsStep(b, lo, hi);
    if lo < hi {
      IdsShift(a, b, lo + 1, hi);
    }
  }

  lemma IdsCons(t: Task, rest: seq<Task>)
    ensures RunnableIds([t] + rest, 0, |rest| + 1) == Entry(t) + RunnableIds(rest, 0, |rest|)
  {
    hide RunnableIds, Entry;
    IdsStep([t] + rest, 0, |rest| + 1);
    IdsShift([t], rest, 0, |rest|);
  }

  /** Only dead tasks are dropped. */
  lemma {:induction false} RetainedIds(ts: seq<Task>)
    ensures RunnableIds(Retained(ts), 0, |Retained(ts)|) == RunnableIds(ts, 0, |ts|)
  {
    if ts != [] {
      hide RunnableIds;
      RetainedIds(ts[1..]);
      IdsCons(ts[0], ts[1..]);
      assert ts == [ts[0]] + ts[1..];
      var rest := Retained(ts[1..]);
      if Kept(ts[0]) {
        IdsCons(ts[0], rest);
        assert Retained(ts) == [ts[0]] + rest;
      } else {
        assert Retained(ts) == rest;
      }
    }
  }

  lemma RetainedAround(ts: seq<Task>, cur: nat)
    requires cur < |ts| && Kept(ts[cur])
    ensures Retained(ts) == Retained(ts[..cur]) + [ts[cur]] + Retained(ts[cur + 1..])
  {
    RetainedConcat(ts[..cur], ts[cur..]);
    assert ts == ts[..cur] + ts[cur..] && ts[cur..][1..] == ts[cur + 1..];
  }

  lemma RunningAround(ts: seq<Task>, cur: nat)
    requires cur < |ts| && forall i :: 0 <= i < |ts| ==> (ts[i].state == Running <==> i == cur)
    ensures var before := Retained(ts[..cur]); var kept := before + [ts[cur]] + Retained(ts[cur + 1..]);
            forall i :: 0 <= i < |kept| ==> (kept[i].state == Running <==> i == |before|)
  {
    hide Retained;
    var before, after := Retained(ts[..cur]), Retained(ts[cur + 1..]);
    var kept := before + [ts[cur]] + after;
    RetainedMembers(ts[..cur]);
    RetainedMembers(ts[cur + 1..]);
    forall i | 0 <= i < |kept| && i != |before| ensures kept[i].state != Running {
      if i < |before| {
        assert kept[i] in ts[..cur];
      } else {
        assert kept[i] == after[i - |before| - 1] && kept[i] in ts[cur + 1..];
      }
    }
  }

  /** Where the running task stands after the cleanup. */
  lemma CleanedCurrent(s: Table)
    requires s.current < |s.tasks|
    requires forall i :: 0 <= i < |s.tasks| ==> (s.tasks[i].state == Running <==> i == s.current)
    ensures var before := Retained(s.tasks[..s.current]);
            var after := Retained(s.tasks[s.current + 1..]);
            && Cleaned(s) == Table(before + [s.tasks[s.current]] + after, |before|, s.nextId)
            && forall i :: 0 <= i < |Cleaned(s).tasks| ==> (Cleaned(s).tasks[i].state == Running <==> i == |before|)
  {
    hide Retained, FirstRunning;
    RetainedAround(s.tasks, s.current);
    RunningAround(s.tasks, s.current);
    var before, kept := Retained(s.tasks[..s.current]), Retained(s.tasks);
    assert kept[|before|].state == Running;
  }

  lemma CleanedWaiting(s: Table)
    requires s.current < |s.tasks|
    requires forall i :: 0 <= i < |s.tasks| ==> (s.tasks[i].state == Running <==> i == s.current)
    ensures Cleaned(s).current < |Cleaned(s).tasks| && Waiting(Cleaned(s)) == Waiting(s)
  {
    hide Cleaned, Retained, RunnableIds, Entry;
    var ts, cur, n := s.tasks, s.current, |s.tasks|;
    var before, after := Retained(ts[..cur]), Retained(ts[cur + 1..]);
    var kept := before + [ts[cur]] + after;
    CleanedCurrent(s);
    IdsShift(before + [ts[cur]], after, 0, |after|);
    IdsFrame(kept, before, 0, |before|);
    RetainedIds(ts[..cur]);
    RetainedIds(ts[cur + 1..]);
    assert ts == ts[..cur + 1] + ts[cur + 1..];
    IdsShift(ts[..cur + 1], ts[cur + 1..], 0, n - cur - 1);
    IdsFrame(ts, ts[..cur], 0, cur);
  }

  lemma TerminatedWaiting(s: Table, i: nat)
    requires s.current < |s.tasks| && i < |s.tasks| && Increasing(s.tasks)
    ensures Waiting(TerminatedAt(s, i)) == Without(Waiting(s), s.tasks[i].id)
  {
    IdsTerminated(s.tasks, i, 0, s.current);
    IdsTerminated(s.tasks, i, s.current + 1, |s.tasks|);
    WithoutConcat(RunnableIds(s.tasks, s.current + 1, |s.tasks|), RunnableIds(s.tasks, 0, s.current), s.tasks[i].id);
  }

  lemma {:induction false} IdsContain(ts: seq<Task>, lo: nat, i: nat, hi: nat)
    requires lo <= i < hi <= |ts| && Runnable(ts[i])
    ensures ts[i].id in RunnableIds(ts, lo, hi)
  {
    hide RunnableIds;
    IdsAt(ts, lo, i, hi);
  }

  lemma {:induction false} IdsOfAll(ts: seq<Task>, lo: nat, hi: nat)
    requires lo <= hi <= |ts| && forall i :: lo <= i < hi ==> ts[i].state != Terminated
    ensures |RunnableIds(ts, lo, hi)| == hi - lo
    decreases hi - lo
  {
    hide RunnableIds;
    IdsStep(ts, lo, hi);
    if lo < hi {
      IdsOfAll(ts, lo + 1, hi);
    }
  }

  /** A cleanup leaves no dead task in the table, except possibly task 0. */
  lemma CleanedHasNoDead(s: Table)
    ensures forall t :: t in Cleaned(s).tasks && t.state == Terminated ==> t.id == 0
  {
    RetainedMembers(s.tasks);
  }

  /** So after a kill that found its victim exactly the running task and the waiting ones are left. */
  lemma KilledHasNoDead(s: Table, id: nat)
    requires Inv(s) && id != 0 && id != CurrentId(s) && FindLive(s.tasks, id).Some?
    ensures forall t :: t in Killed(s, id).tasks ==> t.state != Terminated
    ensures Killed(s, id).current < |Killed(s, id).tasks| == 1 + |Waiting(Killed(s, id))|
  {
    hide Retained, RunnableIds, FirstRunning;
    var t := TerminatedAt(s, FindLive(s.tasks, id).value);
    CleanedHasNoDead(t);
    CleanedInv(t);
    var s' := Killed(s, id);
    forall k | 0 <= k < |s'.tasks| ensures s'.tasks[k].state != Terminated {
      assert s'.tasks[k] in s'.tasks;
    }
    IdsOfAll(s'.tasks, 0, s'.current);
    IdsOfAll(s'.tasks, s'.current + 1, |s'.tasks|);
  }

  lemma KillIsFifo(s: Table, id: nat)
    requires Inv(s) && (id == 0 || id != CurrentId(s))
    ensures Killed(s, id).current < |Killed(s, id).tasks|
    ensures FifoStep(Abs(s), Kill(id), s.nextId, Abs(Killed(s, id)))
  {
    hide RunnableIds, Cleaned, Without;
    if id != 0 {
      match FindLive(s.tasks, id) {
        case None =>
          IdsAbsent(s.tasks, 0, s.current, id);
          IdsAbsent(s.tasks, s.current + 1, |s.tasks|, id);
        case Some(i) =>
          VictimWaits(s, id, i);
          TerminatedWaiting(s, i);
          CleanedWaiting(TerminatedAt(s, i));
          CleanedCurrent(TerminatedAt(s, i));
          KilledHasNoDead(s, id);
      }
    }
  }

  lemma VictimWaits(s: Table, id: nat, i: nat)
    requires Inv(s) && id != CurrentId(s) && i < |s.tasks| && s.tasks[i].id == id && s.tasks[i].state != Terminated
    ensures id in Waiting(s)
  {
    hide RunnableIds;
    if i < s.current {
      IdsContain(s.tasks, 0, i, s.current);
    } else {
      IdsContain(s.tasks, s.current + 1, i, |s.tasks|);
    }
  }

  lemma KillKeepsInv(s: Table, id: nat)
    requires Inv(s) && (id == 0 || id != CurrentId(s))
    ensures Inv(Killed(s, id))
  {
    if id != 0 {
      match FindLive(s.tasks, id) {
        case None =>
        case Some(i) => CleanedInv(TerminatedAt(s, i));
      }
    }
  }

  lemma CleanedInv(s: Table)
    requires Inv(s)
    ensures Inv(Cleaned(s))
  {
    CleanedCurrent(s);
    RetainedIncreasing(s.tasks);
    RetainedMembers(s.tasks);
    var s' := Cleaned(s);
    assert s'.tasks == Retained(s.tasks);
    forall i | 0 <= i < |s'.tasks| ensures s'.tasks[i].quantum <= DEFAULT_QUANTUM && s'.tasks[i].id < s'.nextId {
      assert s'.tasks[i] in s.tasks;
    }
    assert s'.tasks[0] == s.tasks[0];
  }

  // ---------- all steps, all runs ----------

  lemma SwitchKeepsInv(s: Table)
    requires Inv(s)
    ensures Inv(Switched(s).0)
  {
    hide NextRunnable, Runnable;
  }

  lemma ExitKeepsInv(s: Table)
    requires Inv(s) && CurrentId(s) != 0
    ensures Inv(Exited(s).0)
  {
    hide NextRunnable, Runnable, FifoStep, Waiting;
    ExitIsFifo(s);
  }

  lemma StepKeepsInv(s: Table, step: Step)
    requires Inv(s) && Enabled(s, step)
    ensures Inv(Next(s, step))
  {
    match step {
      case Spawn(_) =>
      case Tick =>
        var q := s.tasks[s.current].quantum;
        if |s.tasks| > 1 && q == 1 {
          ExpiredKeepsInv(s);
        }
      case Yield => if |s.tasks| > 1 { SwitchKeepsInv(s); }
      case Exit => ExitKeepsInv(s);
      case Kill(id) => KillKeepsInv(s, id);
    }
  }

  lemma ExpiredKeepsInv(s: Table)
    requires Inv(s)
    ensures Inv(Switched(WithQuantum(s, s.current, 0)).0)
  {
    hide NextRunnable, Runnable;
  }

  /** Every step acts on the queue as specified. */
  lemma StepIsFifo(s: Table, step: Step)
    requires Inv(s) && Enabled(s, step)
    ensures Next(s, step).current < |Next(s, step).tasks|
    ensures FifoStep(Abs(s), step, s.nextId, Abs(Next(s, step)))
  {
    hide FifoStep, Waiting, Ticked, Yielded, Exited, Killed, Spawned;
    StepKeepsInv(s, step);
    match step {
      case Spawn(name) => SpawnIsFifo(s, name);
      case Tick => TickIsFifo(s);
      case Yield => YieldIsFifo(s);
      case Exit => ExitIsFifo(s);
      case Kill(id) => KillIsFifo(s, id);
    }
  }

  ghost predicate EnabledRun(s: Table, steps: seq<Step>)
    requires s.current < |s.tasks|
    decreases |steps|
  {
    steps == [] ||
    (Enabled(s, steps[0]) && Next(s, steps[0]).current < |Next(s, steps[0]).tasks|
     && EnabledRun(Next(s, steps[0]), steps[1..]))
  }

  ghost function After(s: Table, steps: seq<Step>): Table
    requires s.current < |s.tasks| && EnabledRun(s, steps)
    decreases |steps|
  {
    if steps == [] then s else After(Next(s, steps[0]), steps[1..])
  }

  const BOOT: Table := Table([Task(0, "kernel", Running, DEFAULT_QUANTUM)], 0, 1)

  lemma {:induction false} RunKeepsInv(s: Table, steps: seq<Step>)
    requires Inv(s) && EnabledRun(s, steps)
    ensures Inv(After(s, steps))
    decreases |steps|
  {
    if steps != [] {
      StepKeepsInv(s, steps[0]);
      RunKeepsInv(Next(s, steps[0]), steps[1..]);
    }
  }

  /** The invariant holds after every run from the state the kernel starts in. */
  lemma ReachableIsSafe(steps: seq<Step>)
    requires EnabledRun(BOOT, steps)
    ensures Inv(After(BOOT, steps))
  {
    RunKeepsInv(BOOT, steps);
  }

  /** Killing keeps the table sound exactly when the victim is not the task that is running: the
      cleanup would drop the running entry and leave `current` on some other task. */
  lemma KillIsSafeIff(s: Table, id: nat)
    requires Inv(s) && id != 0
    ensures Inv(Killed(s, id)) <==> id != CurrentId(s)
  {
    if id != CurrentId(s) {
      KillKeepsInv(s, id);
    } else {
      var i := FindLive(s.tasks, id).value;
      assert i == s.current by {
        assert s.tasks[s.current].id == id && s.tasks[i].id == id;
      }
      var t := TerminatedAt(s, i);
      RetainedMembers(t.tasks);
      var s' := Killed(s, id);
      forall k | 0 <= k < |s'.tasks| ensures s'.tasks[k].state != Running {
        assert s'.tasks[k] in t.tasks;
      }
    }
  }

  /** Such a state is reachable: after one spawn and one yield, task 1 runs and could be killed. */
  lemma {:induction false} SelfKillIsReachable(name: string)
    ensures EnabledRun(BOOT, [Spawn(name), Yield])
    ensures var s := After(BOOT, [Spawn(name), Yield]);
            s.current < |s.tasks| && CurrentId(s) == 1 && !Inv(Killed(s, 1))
  {
    var spawned := Spawned(BOOT, name);
    var s := Yielded(spawned).0;
    StepKeepsInv(BOOT, Spawn(name));
    StepKeepsInv(spawned, Yield);
    assert NextRunnable(spawned.tasks, 0, 1) == Some(1);
    assert [Spawn(name), Yield][1..] == [Yield] && [Yield][1..] == [];
    KillIsSafeIff(s, 1);
  }

  // ---------- the dead stay dead ----------

  ghost predicate Alive(s: Table, id: nat) {
    exists i :: 0 <= i < |s.tasks| && s.tasks[i].id == id && s.tasks[i].state != Terminated
  }

  /** An id that was handed out and is not alive any more. */
  ghost predicate Gone(s: Table, id: nat) {
    id < s.nextId && !Alive(s, id)
  }

  ghost predicate RevivesNone(s: Table, s': Table) {
    && |s'.tasks| == |s.tasks| && s'.nextId == s.nextId
    && forall k :: 0 <= k < |s.tasks| ==>
         s'.tasks[k].id == s.tasks[k].id && (s.tasks[k].state == Terminated ==> s'.tasks[k].state == Terminated)
  }

  lemma SwitchRevivesNone(s: Table)
    requires s.current < |s.tasks|
    ensures RevivesNone(s, Switched(s).0)
  {
  }

  lemma TickRevivesNone(s: Table)
    requires s.current < |s.tasks|
    ensures RevivesNone(s, Ticked(s).0)
  {
    hide Switched;
    SwitchRevivesNone(WithQuantum(s, s.current, 0));
    SwitchRevivesNone(s);
  }

  lemma KillRevivesNone(s: Table, victim: nat, id: nat)
    requires Gone(s, id)
    ensures Gone(Killed(s, victim), id)
  {
    if victim != 0 && FindLive(s.tasks, victim).Some? {
      var t := TerminatedAt(s, FindLive(s.tasks, victim).value);
      RetainedMembers(t.tasks);
      forall k | 0 <= k < |Killed(s, victim).tasks| && Killed(s, victim).tasks[k].id == id
        ensures Killed(s, victim).tasks[k].state == Terminated
      {
        assert Killed(s, victim).tasks[k] in t.tasks;
      }
    }
  }

  lemma GoneStaysGone(s: Table, step: Step, id: nat)
    requires s.current < |s.tasks| && Gone(s, id)
    ensures Gone(Next(s, step), id)
  {
    hide Switched, Ticked, Cleaned, Killed;
    match step {
      case Spawn(_) =>
      case Tick => TickRevivesNone(s);
      case Yield => SwitchRevivesNone(s);
      case Exit => SwitchRevivesNone(TerminatedAt(s, s.current));
      case Kill(victim) => KillRevivesNone(s, victim, id);
    }
  }

  /** A task that died is never the running one again. */
  lemma {:induction false} TheDeadNeverRun(s: Table, steps: seq<Step>, id: nat)
    requires Inv(s) && EnabledRun(s, steps) && Gone(s, id)
    ensures Gone(After(s, steps), id)
    ensures After(s, steps).current < |After(s, steps).tasks| && CurrentId(After(s, steps)) != id
    decreases |steps|
  {
    if steps != [] {
      StepKeepsInv(s, steps[0]);
      GoneStaysGone(s, steps[0], id);
      TheDeadNeverRun(Next(s, steps[0]), steps[1..], id);
    } else {
      assert s.tasks[s.current].state != Terminated;
    }
  }

  // ---------- bounded waiting ----------

  /** How many tasks stand in the queue before `id`. */
  ghost function Ahead(queue: seq<nat>, id: nat): nat
    requires id in queue
  {
    if queue[0] == id then 0 else 1 + Ahead(queue[1..], id)
  }

  /** Ticks after which a waiting task runs at the latest: what is left of the current quantum,
      and a full quantum for everyone before it. */
  ghost function Patience(f: Fifo, id: nat): nat
    requires id in f.queue
  {
    f.quantum + DEFAULT_QUANTUM * Ahead(f.queue, id)
  }

  lemma {:induction false} AheadIsWithin(queue: seq<nat>, id: nat)
    requires id in queue
    ensures Ahead(queue, id) < |queue|
  {
    if queue[0] != id {
      AheadIsWithin(queue[1..], id);
    }
  }

  lemma {:induction false} AheadPrefix(a: seq<nat>, b: seq<nat>, id: nat)
    requires id in a
    ensures Ahead(a + b, id) == Ahead(a, id)
  {
    if a[0] != id {
      AheadPrefix(a[1..], b, id);
      assert (a + b)[1..] == a[1..] + b;
    }
  }

  lemma {:induction false} AheadWithout(queue: seq<nat>, id: nat, victim: nat)
    requires id in queue && id != victim
    ensures id in Without(queue, victim) && Ahead(Without(queue, victim), id) <= Ahead(queue, id)
  {
    if queue[0] != id {
      AheadWithout(queue[1..], id, victim);
      var rest := Without(queue[1..], victim);
      if queue[0] != victim {
        assert ([queue[0]] + rest)[1..] == rest;
      }
    }
  }

  lemma RotationShortensWait(f: Fifo, id: nat)
    requires id in f.queue && id != f.queue[0]
    ensures id in f.queue[1..] && id in Rotated(f).queue
    ensures Ahead(Rotated(f).queue, id) == Ahead(f.queue, id) - 1
    ensures Ahead(f.queue[1..], id) == Ahead(f.queue, id) - 1
  {
    AheadPrefix(f.queue[1..], [f.running], id);
  }

  lemma {:induction false} AheadInserted(queue: seq<nat>, k: nat, newId: nat, id: nat)
    requires k <= |queue| && id in queue
    ensures var queue' := queue[..k] + [newId] + queue[k..]; id in queue' && Ahead(queue', id) <= Ahead(queue, id) + 1
  {
    var queue' := queue[..k] + [newId] + queue[k..];
    if k == 0 {
      assert queue'[1..] == queue;
    } else {
      assert queue'[0] == queue[0];
      assert queue'[1..] == queue[1..][..k - 1] + [newId] + queue[1..][k - 1..];
      if queue[0] != id {
        AheadInserted(queue[1..], k - 1, newId, id);
      }
    }
  }

  /** A tick brings a waiting task at least one tick closer; yields, exits and other tasks' deaths
      never put it off, and a spawn does by at most one quantum. */
  lemma StepShortensWait(f: Fifo, step: Step, newId: nat, f': Fifo, id: nat)
    requires FifoStep(f, step, newId, f') && id in f.queue && f.quantum >= 1 && step != Kill(id)
    ensures f'.running == id
         || (id in f'.queue
             && Patience(f', id) + (if step.Tick? then 1 else 0)
             <= Patience(f, id) + (if step.Spawn? then DEFAULT_QUANTUM else 0))
  {
    if id != f.queue[0] {
      RotationShortensWait(f, id);
    }
    match step {
      case Kill(victim) => if victim != 0 { AheadWithout(f.queue, id, victim); }
      case Spawn(_) =>
        var k :| 0 <= k <= |f.queue| && f'.queue == f.queue[..k] + [newId] + f.queue[k..];
        AheadInserted(f.queue, k, newId, id);
      case _ =>
    }
  }

  ghost function Ticks(steps: seq<Step>): nat {
    if steps == [] then 0 else (if steps[0].Tick? then 1 else 0) + Ticks(steps[1..])
  }

  ghost function Spawns(steps: seq<Step>): nat {
    if steps == [] then 0 else (if steps[0].Spawn? then 1 else 0) + Spawns(steps[1..])
  }

  /** `id` is the running task at some point of the run. */
  ghost predicate GetsToRun(s: Table, steps: seq<Step>, id: nat)
    requires s.current < |s.tasks| && EnabledRun(s, steps)
    decreases |steps|
  {
    CurrentId(s) == id || (steps != [] && GetsToRun(Next(s, steps[0]), steps[1..], id))
  }

  /** Whatever the others do, a waiting task that is not killed runs within `Patience` ticks, and one
      quantum more for every task spawned in the meantime. */
  lemma {:induction false} BoundedWaiting(s: Table, steps: seq<Step>, id: nat)
    requires Inv(s) && EnabledRun(s, steps)
    requires forall step :: step in steps ==> step != Kill(id)
    requires id in Waiting(s) && Ticks(steps) >= Patience(Abs(s), id) + DEFAULT_QUANTUM * Spawns(steps)
    ensures GetsToRun(s, steps, id)
    decreases |steps|
  {
    hide FifoStep, Patience, Next, Waiting;
    assert Abs(s).quantum >= 1 && steps != [] by { PatienceIsPositive(s, id); }
    assert steps[0] in steps && forall step :: step in steps[1..] ==> step in steps;
    var s' := Next(s, steps[0]);
    StepKeepsInv(s, steps[0]);
    StepIsFifo(s, steps[0]);
    StepShortensWait(Abs(s), steps[0], s.nextId, Abs(s'), id);
    if CurrentId(s') != id {
      BoundedWaiting(s', steps[1..], id);
    }
  }

  lemma PatienceIsPositive(s: Table, id: nat)
    requires Inv(s) && id in Waiting(s)
    ensures Abs(s).quantum >= 1 && Patience(Abs(s), id) >= 1
  {
  }

  /** The bound is exact: when nothing but ticks happens, the task runs at the tick `Patience` names
      and at none before. */
  lemma {:induction false} PatienceIsExact(s: Table, id: nat, n: nat)
    requires Inv(s) && id in Waiting(s) && id != CurrentId(s) && n <= Patience(Abs(s), id)
    ensures var s' := AfterTicks(s, n); Inv(s') && (CurrentId(s') == id <==> n == Patience(Abs(s), id))
    decreases n
  {
    if n > 0 {
      var s' := Ticked(s).0;
      StepKeepsInv(s, Tick);
      TickIsFifo(s);
      if CurrentId(s') != id {
        TickIsExact(Abs(s), s.nextId, Abs(s'), id);
        PatienceIsExact(s', id, n - 1);
      } else {
        TickArrives(Abs(s), s.nextId, Abs(s'), id);
      }
    } else {
      PatienceIsPositive(s, id);
    }
  }

  ghost function AfterTicks(s: Table, n: nat): Table
    requires Inv(s)
    decreases n
  {
    if n == 0 then s
    else
      StepKeepsInv(s, Tick);
      AfterTicks(Ticked(s).0, n - 1)
  }

  // ---------- the first switch after boot, in numbers ----------

  lemma {:induction false} LoneTicks(n: nat)
    ensures AfterTicks(BOOT, n) == BOOT
  {
    if n > 0 {
      LoneTicks(n - 1);
    }
  }

  /** The table `m` ticks after a task was spawned beside the kernel task. */
  ghost function TwoTasks(name: string, m: nat): Table
    requires m <= 10
  {
    if m < 10 then Table([Task(0, "kernel", Running, 10 - m), Task(1, name, Ready, 10)], 0, 2)
    else Table([Task(0, "kernel", Ready, 0), Task(1, name, Running, 10)], 1, 2)
  }

  /** However many ticks the kernel task was alone for, it runs on for nine ticks after a spawn, and the
      new task from the tenth on. */
  lemma {:induction false} FirstSwitch(n: nat, name: string, m: nat)
    requires m <= 10
    ensures Inv(Spawned(AfterTicks(BOOT, n), name))
    ensures AfterTicks(Spawned(AfterTicks(BOOT, n), name), m) == TwoTasks(name, m)
    decreases m
  {
    LoneTicks(n);
    var s := Spawned(BOOT, name);
    StepKeepsInv(BOOT, Spawn(name));
    assert s == TwoTasks(name, 0);
    TwoTasksTick(name, 0, m);
  }

  lemma {:induction false} TwoTasksTick(name: string, m: nat, k: nat)
    requires m + k <= 10
    ensures Inv(TwoTasks(name, m)) && AfterTicks(TwoTasks(name, m), k) == TwoTasks(name, m + k)
    decreases k
  {
    if k > 0 {
      TickInNumbers(name, m);
      TwoTasksTick(name, m + 1, k - 1);
    }
  }

  lemma TickInNumbers(name: string, m: nat)
    requires m < 10
    ensures Ticked(TwoTasks(name, m)).0 == TwoTasks(name, m + 1)
    ensures Ticked(TwoTasks(name, m)).1 == if m < 9 then None else Some((0, 1))
  {
    if m == 9 {
      var s := WithQuantum(TwoTasks(name, 9), 0, 0);
      assert NextRunnable(s.tasks, 0, 1) == Some(1);
    }
  }

  lemma TickIsExact(f: Fifo, newId: nat, f': Fifo, id: nat)
    requires FifoStep(f, Tick, newId, f') && id in f.queue && f.quantum >= 1 && f'.running != id
    ensures id in f'.queue && Patience(f', id) == Patience(f, id) - 1
  {
    if id != f.queue[0] {
      RotationShortensWait(f, id);
    }
  }

  lemma TickArrives(f: Fifo, newId: nat, f': Fifo, id: nat)
    requires FifoStep(f, Tick, newId, f') && id in f.queue && f.quantum >= 1
    requires f'.running == id && f.running != id
    ensures Patience(f, id) == 1
  {
  }
}
