/** Tasks sharing one processor: whatever the others do between a task's switch out and its next
    switch in, the task finds its registers, stack pointer and stack as it left them. */
module TaskSwitching {
  import opened Machine

  datatype Region = Region(lo: int, hi: int)

  /** How a task left the processor. */
  datatype Snapshot = Snapshot(callee: Callee, rsp: int, rip: Word, mem: Memory)

  /** `left` is a record for the proof only: the snapshot of every task that is not running. */
  datatype Sys = Sys(cpu: Cpu, current: nat, contexts: Contexts, stacks: map<nat, Region>, left: map<nat, Snapshot>)

  ghost predicate Inside(r: Region, a: int) {
    r.lo <= a < r.hi
  }

  ghost predicate Apart(a: Region, b: Region) {
    a.hi <= b.lo || b.hi <= a.lo
  }

  ghost predicate SameOn(r: Region, m: Memory, m': Memory) {
    forall a :: Inside(r, a) ==> Read(m, a) == Read(m', a)
  }

  /** The suspended task's frame and everything above it stand in memory as it left them. */
  ghost predicate Frozen(m: Memory, at: int, r: Region, snap: Snapshot) {
    && at == snap.rsp - 56 && r.lo <= at && snap.rsp <= r.hi
    && (forall k :: 0 <= k < 7 ==> Read(m, at + 8 * k) == SwitchWords(snap.rip, snap.callee)[6 - k])
    && (forall a :: snap.rsp <= a < r.hi ==> Read(m, a) == Read(snap.mem, a))
  }

  ghost predicate Inv(s: Sys) {
    && s.current in s.stacks && s.current !in s.left
    && (forall t :: t in s.stacks ==> t == s.current || t in s.left)
    && (forall t :: t in s.left ==> t in s.stacks && t in s.contexts)
    && (forall t, u :: t in s.stacks && u in s.stacks && t != u ==> Apart(s.stacks[t], s.stacks[u]))
    && (forall t :: t in s.left ==> Frozen(s.cpu.mem, s.contexts[t], s.stacks[t], s.left[t]))
  }

  datatype Step =
    | Local(cpu: Cpu)                                    // the running task computes
    | SwitchTo(task: nat, ret: Word)                     // it calls switch_context
    | Create(task: nat, stack: Region, trampoline: Word, entry: Word)   // it makes a task
    | Drop(task: nat)                                    // a suspended task's stack is freed

  /** The running task keeps off the other tasks' stacks, calls `switch_context` with its stack
      pointer in its own stack and room for the frame, and new stacks overlap no existing one. */
  ghost predicate Enabled(s: Sys, step: Step) {
    match step
    case Local(c) => forall t :: t in s.left && t in s.stacks ==> SameOn(s.stacks[t], s.cpu.mem, c.mem)
    case SwitchTo(t, _) =>
      && t in s.left && t in s.contexts && t != s.current && s.current in s.stacks
      && s.stacks[s.current].lo <= s.cpu.rsp - 56 && s.cpu.rsp <= s.stacks[s.current].hi
    case Create(t, r, _, _) =>
      && t !in s.stacks && t != s.current && r.lo + 56 <= r.hi
      && forall u :: u in s.stacks ==> Apart(s.stacks[u], r)
    case Drop(t) => t in s.left
  }

  ghost function Apply(s: Sys, step: Step): Sys
    requires Enabled(s, step)
  {
    match step
    case Local(c) => s.(cpu := c)
    case SwitchTo(t, ret) =>
      var (cpu, contexts) := SwitchCall(s.cpu, s.contexts, s.current, t, ret);
      var snap := Snapshot(CalleeOf(s.cpu.gprs), s.cpu.rsp, ret, s.cpu.mem);
      Sys(cpu, t, contexts, s.stacks, s.left[s.current := snap] - {t})
    case Create(t, r, trampoline, entry) =>
      var (mem, rsp) := FirstFrame(s.cpu.mem, r.hi, trampoline, entry);
      Sys(s.cpu.(mem := mem), s.current, s.contexts[t := rsp], s.stacks[t := r],
          s.left[t := Snapshot(Callee(0, 0, entry, 0, 0, 0), r.hi, trampoline, s.cpu.mem)])
    case Drop(t) => s.(stacks := s.stacks - {t}, left := s.left - {t})
  }

  // ---------- one step ----------

  lemma FrozenFrame(m: Memory, m': Memory, at: int, r: Region, snap: Snapshot)
    requires Frozen(m, at, r, snap) && SameOn(r, m, m')
    ensures Frozen(m', at, r, snap)
  {
    forall k | 0 <= k < 7 ensures Read(m', at + 8 * k) == SwitchWords(snap.rip, snap.callee)[6 - k] {
      assert Inside(r, at + 8 * k);
    }
    forall a | snap.rsp <= a < r.hi ensures Read(m', a) == Read(snap.mem, a) {
      assert Inside(r, a);
    }
  }

  /** Pushing a frame inside one stack freezes it there and leaves every other stack alone. */
  lemma PushedFrame(c: Cpu, ret: Word, callee: Callee, r: Region)
    requires r.lo <= c.rsp - 56 && c.rsp <= r.hi
    ensures var c' := PushAll(c, SwitchWords(ret, callee));
            && c' == c.(rsp := c.rsp - 56, mem := c'.mem)
            && Frozen(c'.mem, c.rsp - 56, r, Snapshot(callee, c.rsp, ret, c.mem))
            && forall other :: Apart(r, other) ==> SameOn(other, c.mem, c'.mem)
  {
    var words := SwitchWords(ret, callee);
    PushAllStores(c, words);
    var c' := PushAll(c, words);
    forall k | 0 <= k < 7 ensures Read(c'.mem, c.rsp - 56 + 8 * k) == words[6 - k] {
      assert Top(c', k) == words[6 - k];
    }
  }

  lemma ResumeFrozen(c: Cpu, at: int, r: Region, snap: Snapshot)
    requires Frozen(c.mem, at, r, snap)
    ensures Resumed(c, at) == c.(gprs := WithCallee(c.gprs, snap.callee), rip := snap.rip, rsp := snap.rsp)
  {
    ResumeFindsFrame(c, at, snap.rip, snap.callee);
  }

  /** What a switch does: it lands where task `t` left, and freezes the task it leaves. */
  lemma SwitchLands(s: Sys, t: nat, ret: Word)
    requires Inv(s) && Enabled(s, SwitchTo(t, ret))
    ensures var s', snap := Apply(s, SwitchTo(t, ret)), s.left[t];
            && s'.cpu.rsp == snap.rsp && s'.cpu.rip == snap.rip && CalleeOf(s'.cpu.gprs) == snap.callee
            && s'.contexts == s.contexts[s.current := s.cpu.rsp - 56]
            && (forall u :: u in s.stacks && u != s.current ==> SameOn(s.stacks[u], s.cpu.mem, s'.cpu.mem))
            && Frozen(s'.cpu.mem, s.cpu.rsp - 56, s.stacks[s.current],
                      Snapshot(CalleeOf(s.cpu.gprs), s.cpu.rsp, ret, s.cpu.mem))
  {
    hide PushAll, Resumed, SwitchWords, Frozen, SameOn;
    var callee := CalleeOf(s.cpu.gprs);
    PushedFrame(s.cpu, ret, callee, s.stacks[s.current]);
    var saved := PushAll(s.cpu, SwitchWords(ret, callee));
    FrozenFrame(s.cpu.mem, saved.mem, s.contexts[t], s.stacks[t], s.left[t]);
    ResumeFrozen(saved, s.contexts[t], s.stacks[t], s.left[t]);
  }

  lemma SwitchKeepsInv(s: Sys, t: nat, ret: Word)
    requires Inv(s) && Enabled(s, SwitchTo(t, ret))
    ensures Inv(Apply(s, SwitchTo(t, ret)))
  {
    hide Frozen, SwitchCall;
    var s' := Apply(s, SwitchTo(t, ret));
    SwitchLands(s, t, ret);
    forall u | u in s'.left ensures Frozen(s'.cpu.mem, s'.contexts[u], s'.stacks[u], s'.left[u]) {
      if u != s.current {
        FrozenFrame(s.cpu.mem, s'.cpu.mem, s.contexts[u], s.stacks[u], s.left[u]);
      }
    }
  }

  lemma CreateKeepsInv(s: Sys, step: Step)
    requires Inv(s) && step.Create? && Enabled(s, step)
    ensures Inv(Apply(s, step))
  {
    hide Frozen;
    var Create(t, r, trampoline, entry) := step;
    var s' := Apply(s, step);
    var c := Cpu(Gprs(0, 0, 0, 0, 0, 0, 0, 0, 0, 0, 0, 0, 0, 0, 0), r.hi, 0, 0, 0, 0, s.cpu.mem);
    PushedFrame(c, trampoline, Callee(0, 0, entry, 0, 0, 0), r);
    forall u | u in s'.left ensures Frozen(s'.cpu.mem, s'.contexts[u], s'.stacks[u], s'.left[u]) {
      if u != t {
        assert Apart(s.stacks[u], r);
        FrozenFrame(s.cpu.mem, s'.cpu.mem, s.contexts[u], s.stacks[u], s.left[u]);
      }
    }
  }

  lemma LocalKeepsInv(s: Sys, c: Cpu)
    requires Inv(s) && Enabled(s, Local(c))
    ensures Inv(s.(cpu := c))
  {
    hide Frozen;
    forall u | u in s.left ensures Frozen(c.mem, s.contexts[u], s.stacks[u], s.left[u]) {
      FrozenFrame(s.cpu.mem, c.mem, s.contexts[u], s.stacks[u], s.left[u]);
    }
  }

  lemma StepKeepsInv(s: Sys, step: Step)
    requires Inv(s) && Enabled(s, step)
    ensures Inv(Apply(s, step))
  {
    hide Frozen, SameOn, SwitchCall, FirstFrame;
    match step {
      case Local(c) => LocalKeepsInv(s, c);
      case SwitchTo(t, ret) => SwitchKeepsInv(s, t, ret);
      case Create(_, _, _, _) => CreateKeepsInv(s, step);
      case Drop(_) =>
    }
  }

  // ---------- runs ----------

  ghost predicate EnabledRun(s: Sys, steps: seq<Step>)
    decreases |steps|
  {
    steps == [] || (Enabled(s, steps[0]) && EnabledRun(Apply(s, steps[0]), steps[1..]))
  }

  ghost function After(s: Sys, steps: seq<Step>): Sys
    requires EnabledRun(s, steps)
    decreases |steps|
  {
    if steps == [] then s else After(Apply(s, steps[0]), steps[1..])
  }

  /** The run neither resumes nor frees task `t`. */
  ghost predicate LeavesAlone(steps: seq<Step>, t: nat) {
    forall step :: step in steps ==> step != Drop(t) && !(step.SwitchTo? && step.task == t)
  }

  lemma {:induction false} RunKeepsSnapshot(s: Sys, steps: seq<Step>, t: nat)
    requires Inv(s) && EnabledRun(s, steps) && LeavesAlone(steps, t) && t in s.left
    ensures var s' := After(s, steps); Inv(s') && t in s'.left && s'.left[t] == s.left[t] && s'.stacks[t] == s.stacks[t]
    decreases |steps|
  {
    if steps != [] {
      hide Frozen, SwitchCall, FirstFrame, Inv, SameOn, Apply, Enabled;
      StepKeepsInv(s, steps[0]);
      StepKeepsSnapshot(s, steps[0], t);
      RunKeepsSnapshot(Apply(s, steps[0]), steps[1..], t);
    }
  }

  lemma StepKeepsSnapshot(s: Sys, step: Step, t: nat)
    requires Inv(s) && Enabled(s, step) && t in s.left && LeavesAlone([step], t)
    ensures var s' := Apply(s, step);
            t in s.stacks && t in s'.left && s'.left[t] == s.left[t] && t in s'.stacks && s'.stacks[t] == s.stacks[t]
  {
    hide Frozen, SwitchCall, FirstFrame, SameOn;
    assert step in [step];
  }

  /** Landing on task `t` after any run that left it alone. */
  lemma LandsAsLeft(s: Sys, steps: seq<Step>, t: nat, ret: Word)
    requires Inv(s) && EnabledRun(s, steps) && LeavesAlone(steps, t) && t in s.left
    requires Enabled(After(s, steps), SwitchTo(t, ret))
    ensures var s', snap := Apply(After(s, steps), SwitchTo(t, ret)), s.left[t];
            && t in s.stacks && s'.cpu.rsp == snap.rsp && s'.cpu.rip == snap.rip && CalleeOf(s'.cpu.gprs) == snap.callee
            && SameOn(Region(snap.rsp, s.stacks[t].hi), snap.mem, s'.cpu.mem)
            && Inv(s') && s'.current == t && s'.stacks[t] == s.stacks[t]
  {
    hide SwitchCall, FirstFrame, EnabledRun, After, LeavesAlone;
    RunKeepsSnapshot(s, steps, t);
    var m := After(s, steps);
    SwitchLands(m, t, ret);
    SwitchKeepsInv(m, t, ret);
    var s', r := Apply(m, SwitchTo(t, ret)), s.stacks[t];
    assert Frozen(m.cpu.mem, m.contexts[t], m.stacks[t], m.left[t]);
    forall a | Inside(Region(s.left[t].rsp, r.hi), a) ensures Read(s.left[t].mem, a) == Read(s'.cpu.mem, a) {
      assert Inside(m.stacks[t], a);
    }
  }

  /** A call of `switch_context` returns to its caller, however long the other tasks ran in between,
      with the callee-saved registers, the stack pointer and the live stack of the call. */
  lemma SwitchReturns(s: Sys, to: nat, ret: Word, steps: seq<Step>, ret': Word)
    requires Inv(s) && Enabled(s, SwitchTo(to, ret))
    requires var s1 := Apply(s, SwitchTo(to, ret));
             && EnabledRun(s1, steps) && LeavesAlone(steps, s.current)
             && Enabled(After(s1, steps), SwitchTo(s.current, ret'))
    ensures var s' := Apply(After(Apply(s, SwitchTo(to, ret)), steps), SwitchTo(s.current, ret'));
            && s'.cpu.rip == ret && s'.cpu.rsp == s.cpu.rsp && CalleeOf(s'.cpu.gprs) == CalleeOf(s.cpu.gprs)
            && SameOn(Region(s.cpu.rsp, s.stacks[s.current].hi), s.cpu.mem, s'.cpu.mem)
            && Inv(s') && s'.current == s.current && s'.stacks[s.current] == s.stacks[s.current]
  {
    SwitchKeepsInv(s, to, ret);
    LandsAsLeft(Apply(s, SwitchTo(to, ret)), steps, s.current, ret');
  }

  /** A new task starts at the trampoline with its entry function in r12 and its whole stack free. */
  lemma NewTaskStarts(s: Sys, t: nat, r: Region, trampoline: Word, entry: Word, steps: seq<Step>, ret: Word)
    requires Inv(s) && Enabled(s, Create(t, r, trampoline, entry))
    requires var s1 := Apply(s, Create(t, r, trampoline, entry));
             EnabledRun(s1, steps) && LeavesAlone(steps, t) && Enabled(After(s1, steps), SwitchTo(t, ret))
    ensures var s' := Apply(After(Apply(s, Create(t, r, trampoline, entry)), steps), SwitchTo(t, ret));
            s'.cpu.rip == trampoline && s'.cpu.gprs.r12 == entry && s'.cpu.rsp == r.hi
  {
    CreateKeepsInv(s, Create(t, r, trampoline, entry));
    LandsAsLeft(Apply(s, Create(t, r, trampoline, entry)), steps, t, ret);
  }

  // ---------- preemption ----------

  /** Code called by the handler: it works below the handler's frame and changes nothing above. */
  ghost predicate RunsBelow(s: Sys, c: Cpu, base: int)
    requires s.current in s.stacks
  {
    Enabled(s, Local(c)) && c.rsp <= base && SameOn(Region(base, s.stacks[s.current].hi), s.cpu.mem, c.mem)
  }

  /** A task that the timer interrupts anywhere, and that is switched away from inside the handler,
      gets back all fifteen registers, its flags, stack pointer, instruction pointer and live stack
      when it is switched to again and the handler leaves. */
  lemma PreemptionIsInvisible(s: Sys, inHandler: Cpu, to: nat, ret: Word, steps: seq<Step>, ret': Word, atExit: Cpu)
    requires Inv(s) && s.stacks[s.current].lo <= Aligned(s.cpu.rsp) - 160 && 0 <= s.cpu.rsp <= s.stacks[s.current].hi
    requires var s1 := s.(cpu := HandlerEntered(s.cpu));
             && Enabled(s, Local(HandlerEntered(s.cpu)))
             && RunsBelow(s1, inHandler, s1.cpu.rsp)
             && Enabled(s1.(cpu := inHandler), SwitchTo(to, ret))
    requires var s2 := s.(cpu := inHandler);
             && EnabledRun(Apply(s2, SwitchTo(to, ret)), steps) && LeavesAlone(steps, s.current)
             && Enabled(After(Apply(s2, SwitchTo(to, ret)), steps), SwitchTo(s.current, ret'))
    requires var s3 := Apply(After(Apply(s.(cpu := inHandler), SwitchTo(to, ret)), steps), SwitchTo(s.current, ret'));
             && s.current in s3.stacks && RunsBelow(s3, atExit, HandlerEntered(s.cpu).rsp)
             && atExit.rsp == HandlerEntered(s.cpu).rsp
    ensures HandlerLeft(atExit) == s.cpu.(mem := atExit.mem)
    ensures SameOn(Region(s.cpu.rsp, s.stacks[s.current].hi), s.cpu.mem, atExit.mem)
  {
    hide PushAll, HandlerEntered, HandlerLeft, SwitchCall, FirstFrame, Frozen, EnabledRun, After, LeavesAlone;
    var entered := HandlerEntered(s.cpu);
    var s1 := s.(cpu := entered);
    var s2 := s.(cpu := inHandler);
    HandlerStores(s.cpu);
    LocalKeepsInv(s, entered);
    LocalKeepsInv(s1, inHandler);
    SwitchReturns(s2, to, ret, steps, ret');
    var s3 := Apply(After(Apply(s2, SwitchTo(to, ret)), steps), SwitchTo(s.current, ret'));
    var hi := s.stacks[s.current].hi;
    forall a | entered.rsp <= a < hi ensures Read(atExit.mem, a) == Read(entered.mem, a) {
      assert Inside(Region(entered.rsp, hi), a) && Inside(Region(inHandler.rsp, hi), a);
    }
    HandlerRoundTrip(s.cpu, atExit);
    forall a | Inside(Region(s.cpu.rsp, hi), a) ensures Read(s.cpu.mem, a) == Read(atExit.mem, a) {
      assert Read(atExit.mem, a) == Read(entered.mem, a);
    }
  }

  /** The shortest case: the handler switches away at once, the other task switches straight back, and
      the handler leaves. The interrupted task cannot tell. */
  lemma ImmediateReturnIsInvisible(s: Sys, to: nat, ret: Word, ret': Word)
    requires Inv(s) && to in s.left && to in s.stacks && 0 <= s.cpu.rsp <= s.stacks[s.current].hi
    requires s.stacks[s.current].lo <= Aligned(s.cpu.rsp) - 216 && s.stacks[to].lo <= s.left[to].rsp - 56
    ensures var s1 := s.(cpu := HandlerEntered(s.cpu));
            && Enabled(s1, SwitchTo(to, ret)) && Enabled(Apply(s1, SwitchTo(to, ret)), SwitchTo(s.current, ret'))
            && var back := Apply(Apply(s1, SwitchTo(to, ret)), SwitchTo(s.current, ret')).cpu;
               HandlerLeft(back) == s.cpu.(mem := back.mem)
               && SameOn(Region(s.cpu.rsp, s.stacks[s.current].hi), s.cpu.mem, back.mem)
  {
    hide HandlerEntered, HandlerLeft, SwitchCall, Frozen, SameOn, RunsBelow, EnabledRun, After, LeavesAlone, Apart;
    var entered := HandlerEntered(s.cpu);
    var s1 := s.(cpu := entered);
    HandlerStaysInside(s);
    LocalKeepsInv(s, entered);
    SwitchBackIsEnabled(s1, to, ret, ret');
    var s2 := Apply(s1, SwitchTo(to, ret));
    NoSteps(s2, s.current);
    SwitchReturns(s1, to, ret, [], ret');
    var s3 := Apply(s2, SwitchTo(s.current, ret'));
    NothingDone(s1, entered.rsp);
    NothingDone(s3, entered.rsp);
    PreemptionIsInvisible(s, entered, to, ret, [], ret', s3.cpu);
  }

  lemma NoSteps(s: Sys, t: nat)
    ensures EnabledRun(s, []) && After(s, []) == s && LeavesAlone([], t)
  {
  }

  lemma NothingDone(s: Sys, base: int)
    requires Inv(s) && s.cpu.rsp <= base
    ensures RunsBelow(s, s.cpu, base)
  {
  }

  lemma SwitchBackIsEnabled(s: Sys, to: nat, ret: Word, ret': Word)
    requires Inv(s) && Enabled(s, SwitchTo(to, ret)) && s.stacks[to].lo <= s.left[to].rsp - 56
    ensures Enabled(Apply(s, SwitchTo(to, ret)), SwitchTo(s.current, ret'))
  {
    hide SwitchCall, SameOn;
    assert s.left[to].rsp <= s.stacks[to].hi;
    SwitchLands(s, to, ret);
  }

  /** The handler's frame stays on the interrupted task's stack. */
  lemma HandlerStaysInside(s: Sys)
    requires Inv(s) && 0 <= s.cpu.rsp <= s.stacks[s.current].hi && s.stacks[s.current].lo <= Aligned(s.cpu.rsp) - 160
    ensures HandlerEntered(s.cpu).rsp == Aligned(s.cpu.rsp) - 160
    ensures Enabled(s, Local(HandlerEntered(s.cpu)))
  {
    hide PushAll, Frozen;
    PushAllStores(s.cpu.(rsp := Aligned(s.cpu.rsp)), InterruptWords(s.cpu, s.cpu.rsp) + GprWords(s.cpu.gprs));
    forall t | t in s.left && t in s.stacks ensures SameOn(s.stacks[t], s.cpu.mem, HandlerEntered(s.cpu).mem) {
      assert Apart(s.stacks[t], s.stacks[s.current]);
    }
  }

  lemma HandlerStores(c: Cpu)
    requires c.rsp >= 0
    ensures HandlerEntered(c).rsp == Aligned(c.rsp) - 160 <= c.rsp
    ensures forall a :: Aligned(c.rsp) <= a ==> Read(HandlerEntered(c).mem, a) == Read(c.mem, a)
  {
    PushAllStores(c.(rsp := Aligned(c.rsp)), InterruptWords(c, c.rsp) + GprWords(c.gprs));
  }
}
