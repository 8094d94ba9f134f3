/** The processor state that matters for switching tasks, and the three hand-written instruction
    sequences: `switch_context`, the timer handler's frame, and the first frame of a new task. */
module Machine {
  type Word = nat

  datatype Gprs = Gprs(rax: Word, rbx: Word, rcx: Word, rdx: Word, rsi: Word, rdi: Word, rbp: Word,
                       r8: Word, r9: Word, r10: Word, r11: Word, r12: Word, r13: Word, r14: Word, r15: Word)

  /** Memory by word address; words of one stack lie 8 apart. */
  type Memory = map<int, Word>

  datatype Cpu = Cpu(gprs: Gprs, rsp: int, rip: Word, rflags: Word, cs: Word, ss: Word, mem: Memory)

  function Read(m: Memory, a: int): Word {
    if a in m then m[a] else 0
  }

  function Push(c: Cpu, w: Word): Cpu {
    c.(rsp := c.rsp - 8, mem := c.mem[c.rsp - 8 := w])
  }

  /** Pushes in the order given. */
  function PushAll(c: Cpu, words: seq<Word>): Cpu
    decreases |words|
  {
    if words == [] then c else PushAll(Push(c, words[0]), words[1..])
  }

  function Top(c: Cpu, k: nat): Word {
    Read(c.mem, c.rsp + 8 * k)
  }

  /** The callee-saved registers of the System V calling convention. */
  datatype Callee = Callee(rbp: Word, rbx: Word, r12: Word, r13: Word, r14: Word, r15: Word)

  function CalleeOf(g: Gprs): Callee {
    Callee(g.rbp, g.rbx, g.r12, g.r13, g.r14, g.r15)
  }

  function WithCallee(g: Gprs, c: Callee): Gprs {
    g.(rbp := c.rbp, rbx := c.rbx, r12 := c.r12, r13 := c.r13, r14 := c.r14, r15 := c.r15)
  }

  /** Stack of a suspended task, top word last: the return address under the six registers. */
  function SwitchWords(ret: Word, c: Callee): seq<Word> {
    [ret, c.rbp, c.rbx, c.r12, c.r13, c.r14, c.r15]
  }

  /** Popping a switch frame found at `rsp` and returning. */
  function Resumed(c: Cpu, rsp: int): Cpu {
    var at := c.(rsp := rsp);
    var callee := Callee(Top(at, 5), Top(at, 4), Top(at, 3), Top(at, 2), Top(at, 1), Top(at, 0));
    c.(gprs := WithCallee(c.gprs, callee), rip := Top(at, 6), rsp := rsp + 56)
  }

  type Contexts = map<nat, int>

  /** `call switch_context(old, new)` with `ret` the address behind the call. */
  function SwitchCall(c: Cpu, contexts: Contexts, old_: nat, new_: nat, ret: Word): (Cpu, Contexts)
    requires new_ in contexts && old_ != new_
  {
    var saved := PushAll(c, SwitchWords(ret, CalleeOf(c.gprs)));
    (Resumed(saved, contexts[new_]), contexts[old_ := saved.rsp])
  }

  /** The words the timer handler pushes behind the processor's own five. */
  function GprWords(g: Gprs): seq<Word> {
    [g.rax, g.rbx, g.rcx, g.rdx, g.rsi, g.rdi, g.rbp, g.r8, g.r9, g.r10, g.r11, g.r12, g.r13, g.r14, g.r15]
  }

  function InterruptWords(c: Cpu, rsp: Word): seq<Word> {
    [c.ss, rsp, c.rflags, c.cs, c.rip]
  }

  function Aligned(rsp: int): int {
    rsp - rsp % 16
  }

  /** Interrupt delivery in 64-bit mode (aligned stack, five words), then the 15 pushes. */
  function HandlerEntered(c: Cpu): Cpu
    requires c.rsp >= 0
  {
    PushAll(c.(rsp := Aligned(c.rsp)), InterruptWords(c, c.rsp) + GprWords(c.gprs))
  }

  function PoppedGprs(c: Cpu): Gprs {
    Gprs(Top(c, 14), Top(c, 13), Top(c, 12), Top(c, 11), Top(c, 10), Top(c, 9), Top(c, 8), Top(c, 7),
         Top(c, 6), Top(c, 5), Top(c, 4), Top(c, 3), Top(c, 2), Top(c, 1), Top(c, 0))
  }

  /** The 15 pops and `iretq`. */
  function HandlerLeft(c: Cpu): Cpu {
    c.(gprs := PoppedGprs(c),
       rip := Top(c, 15), cs := Top(c, 16), rflags := Top(c, 17), rsp := Top(c, 18), ss := Top(c, 19))
  }

  /** The memory writes of `Task::new`: seven words below `top`, and the initial stack pointer. */
  function FirstFrame(m: Memory, top: int, trampoline: Word, entry: Word): (Memory, int) {
    var c := PushAll(Cpu(Gprs(0, 0, 0, 0, 0, 0, 0, 0, 0, 0, 0, 0, 0, 0, 0), top, 0, 0, 0, 0, m),
                     SwitchWords(trampoline, Callee(0, 0, entry, 0, 0, 0)));
    (c.mem, c.rsp)
  }

  // ---------- pushes and what they leave alone ----------

  /** The pushed words lie below the old top in reverse order; nothing else changes. */
  lemma {:induction false} PushAllStores(c: Cpu, words: seq<Word>)
    ensures var c' := PushAll(c, words);
            && c' == c.(rsp := c.rsp - 8 * |words|, mem := c'.mem)
            && (forall k :: 0 <= k < |words| ==> Top(c', k) == words[|words| - 1 - k])
            && (forall a :: a < c.rsp - 8 * |words| || c.rsp <= a ==> Read(c'.mem, a) == Read(c.mem, a))
    decreases |words|
  {
    if words != [] {
      PushAllStores(Push(c, words[0]), words[1..]);
      var c' := PushAll(c, words);
      assert Top(c', |words| - 1) == Read(Push(c, words[0]).mem, c.rsp - 8) == words[0];
      forall k | 0 <= k < |words| - 1 ensures Top(c', k) == words[|words| - 1 - k] {
        assert words[1..][|words| - 2 - k] == words[|words| - 1 - k];
      }
    }
  }

  /** A frame written by `switch_context` or `Task::new` resumes with the registers, stack pointer
      and return address that went into it. */
  lemma ResumeFindsFrame(c: Cpu, at: int, ret: Word, callee: Callee)
    requires forall k :: 0 <= k < 7 ==> Read(c.mem, at + 8 * k) == SwitchWords(ret, callee)[6 - k]
    ensures Resumed(c, at) == c.(gprs := WithCallee(c.gprs, callee), rip := ret, rsp := at + 56)
  {
    var s := c.(rsp := at);
    assert Top(s, 0) == callee.r15 && Top(s, 1) == callee.r14 && Top(s, 2) == callee.r13 && Top(s, 3) == callee.r12;
    assert Top(s, 4) == callee.rbx && Top(s, 5) == callee.rbp && Top(s, 6) == ret;
  }

  /** Everything an interrupt takes away comes back when the handler leaves with its frame intact. */
  lemma HandlerRoundTrip(c: Cpu, back: Cpu)
    requires c.rsp >= 0 && back.rsp == HandlerEntered(c).rsp
    requires forall a :: back.rsp <= a < Aligned(c.rsp) ==> Read(back.mem, a) == Read(HandlerEntered(c).mem, a)
    ensures HandlerLeft(back) == c.(mem := back.mem)
  {
    var words := InterruptWords(c, c.rsp) + GprWords(c.gprs);
    var entered := HandlerEntered(c);
    PushAllStores(c.(rsp := Aligned(c.rsp)), words);
    forall k: nat | k < 20 ensures Top(back, k) == words[19 - k] {
      assert Read(back.mem, back.rsp + 8 * k) == Read(entered.mem, back.rsp + 8 * k);
      assert Top(entered, k) == words[19 - k];
    }
    assert words[..5] == InterruptWords(c, c.rsp) && words[5..] == GprWords(c.gprs);
  }

  /** Where the words of the three frames lie, by distance from the stack pointer they start from. */
  lemma SwitchFrame(c: Cpu, ret: Word)
    ensures var m := PushAll(c, SwitchWords(ret, CalleeOf(c.gprs))).mem;
            && Read(m, c.rsp - 8) == ret && Read(m, c.rsp - 16) == c.gprs.rbp && Read(m, c.rsp - 24) == c.gprs.rbx
            && Read(m, c.rsp - 32) == c.gprs.r12 && Read(m, c.rsp - 40) == c.gprs.r13
            && Read(m, c.rsp - 48) == c.gprs.r14 && Read(m, c.rsp - 56) == c.gprs.r15
  {
    hide PushAll;
    var words := SwitchWords(ret, CalleeOf(c.gprs));
    PushAllStores(c, words);
    var c' := PushAll(c, words);
    assert Top(c', 0) == words[6] && Top(c', 1) == words[5] && Top(c', 2) == words[4] && Top(c', 3) == words[3];
    assert Top(c', 4) == words[2] && Top(c', 5) == words[1] && Top(c', 6) == words[0];
  }

  lemma NewTaskFrame(m: Memory, top: int, trampoline: Word, entry: Word)
    ensures var (m', rsp) := FirstFrame(m, top, trampoline, entry);
            && rsp == top - 56
            && Read(m', top - 8) == trampoline && Read(m', top - 16) == 0 && Read(m', top - 24) == 0
            && Read(m', top - 32) == entry && Read(m', top - 40) == 0 && Read(m', top - 48) == 0
            && Read(m', top - 56) == 0
  {
    var c := Cpu(Gprs(0, 0, 0, 0, 0, 0, 0, 0, 0, 0, 0, entry, 0, 0, 0), top, 0, 0, 0, 0, m);
    SwitchFrame(c, trampoline);
    PushAllStores(c, SwitchWords(trampoline, CalleeOf(c.gprs)));
    SameWords(c, Cpu(Gprs(0, 0, 0, 0, 0, 0, 0, 0, 0, 0, 0, 0, 0, 0, 0), top, 0, 0, 0, 0, m),
              SwitchWords(trampoline, CalleeOf(c.gprs)));
  }

  lemma {:induction false} SameWords(c: Cpu, d: Cpu, words: seq<Word>)
    requires c.rsp == d.rsp && c.mem == d.mem
    ensures PushAll(c, words).rsp == PushAll(d, words).rsp && PushAll(c, words).mem == PushAll(d, words).mem
    decreases |words|
  {
    if words != [] {
      SameWords(Push(c, words[0]), Push(d, words[0]), words[1..]);
    }
  }

  lemma InterruptFrame(c: Cpu)
    requires c.rsp >= 0
    ensures var top := Aligned(c.rsp); var m := HandlerEntered(c).mem;
            && top % 16 == 0 && top <= c.rsp < top + 16 && HandlerEntered(c).rsp == top - 160
            && Read(m, top - 8) == c.ss && Read(m, top - 16) == c.rsp && Read(m, top - 24) == c.rflags
            && Read(m, top - 32) == c.cs && Read(m, top - 40) == c.rip
            && var g := c.gprs;
               var pushed := [g.rax, g.rbx, g.rcx, g.rdx, g.rsi, g.rdi, g.rbp, g.r8, g.r9, g.r10, g.r11, g.r12, g.r13,
                              g.r14, g.r15];
               forall k: nat :: k < 15 ==> Read(m, top - 48 - 8 * k) == pushed[k]
  {
    var words := InterruptWords(c, c.rsp) + GprWords(c.gprs);
    var e := HandlerEntered(c);
    PushAllStores(c.(rsp := Aligned(c.rsp)), words);
    hide PushAll;
    assert Top(e, 19) == words[0] && Top(e, 18) == words[1] && Top(e, 17) == words[2] && Top(e, 16) == words[3];
    assert Top(e, 15) == words[4];
    forall k: nat | k < 15 ensures Read(e.mem, Aligned(c.rsp) - 48 - 8 * k) == GprWords(c.gprs)[k] {
      assert Top(e, 14 - k) == words[5 + k];
    }
  }

  lemma {:induction false} PushOneMore(c: Cpu, words: seq<Word>, w: Word)
    ensures PushAll(c, words + [w]) == Push(PushAll(c, words), w)
    decreases |words|
  {
    if words == [] {
      assert words + [w] == [w];
      assert [w][1..] == [];
    } else {
      assert (words + [w])[1..] == words[1..] + [w];
      PushOneMore(Push(c, words[0]), words[1..], w);
    }
  }

  lemma SameStack(c: Cpu, d: Cpu)
    requires c.mem == d.mem && c.rsp == d.rsp
    ensures forall k: nat :: Top(c, k) == Top(d, k)
  {
  }

  // ---------- the instruction sequences ----------

  class Processor {
    var gprs: Gprs
    var rsp: int
    var rip: Word
    var rflags: Word
    var cs: Word
    var ss: Word
    var mem: Memory
    var contexts: Contexts

    ghost function Now(): Cpu
      reads this
    {
      Cpu(gprs, rsp, rip, rflags, cs, ss, mem)
    }

    constructor (c: Cpu)
      ensures Now() == c && contexts == map[]
    {
      gprs, rsp, rip, rflags, cs, ss, mem, contexts := c.gprs, c.rsp, c.rip, c.rflags, c.cs, c.ss, c.mem, map[];
    }

    /** `sofar` are the words pushed since the state was `start`. */
    method PushWord(w: Word, ghost start: Cpu, ghost sofar: seq<Word>) returns (ghost pushed: seq<Word>)
      requires Now() == PushAll(start, sofar)
      modifies this`rsp, this`mem
      ensures pushed == sofar + [w] && Now() == PushAll(start, pushed)
    {
      PushOneMore(start, sofar, w);
      rsp := rsp - 8;
      mem := mem[rsp := w];
      pushed := sofar + [w];
    }

    /** The `n`-th pop since the state was `start`. */
    method PopWord(ghost start: Cpu, ghost n: nat) returns (w: Word)
      requires Now() == start.(rsp := start.rsp + 8 * n)
      modifies this`rsp
      ensures w == Top(start, n) && Now() == start.(rsp := start.rsp + 8 * (n + 1))
    {
      w := if rsp in mem then mem[rsp] else 0;
      rsp := rsp + 8;
    }

    /** The call, six pushes, two moves, six pops and the return, in the order of the source. */
    method SwitchContext(from: nat, to: nat, ret: Word)
      requires to in contexts && from != to
      modifies this
      ensures (Now(), contexts) == SwitchCall(old(Now()), old(contexts), from, to, ret)
    {
      ghost var c := Now();
      PushCallee(ret);
      ghost var saved := Now();
      contexts := contexts[from := rsp];
      rsp := contexts[to];
      ghost var at := rsp;
      PopCallee();
      rip := PopWord(Now(), 0);
      assert Now() == Resumed(saved, at);
    }

    method PushCallee(ret: Word)
      modifies this`rsp, this`mem
      ensures Now() == PushAll(old(Now()), SwitchWords(ret, CalleeOf(old(gprs))))
    {
      hide PushAll;
      ghost var c := Now();
      PushNothing(c);
      ghost var done := PushWord(ret, c, []);
      done := PushWord(gprs.rbp, c, done);
      done := PushWord(gprs.rbx, c, done);
      done := PushWord(gprs.r12, c, done);
      done := PushWord(gprs.r13, c, done);
      done := PushWord(gprs.r14, c, done);
      done := PushWord(gprs.r15, c, done);
      assert done == SwitchWords(ret, CalleeOf(c.gprs));
    }

    method PopCallee()
      modifies this`gprs, this`rsp
      ensures var c := old(Now());
              var callee := Callee(Top(c, 5), Top(c, 4), Top(c, 3), Top(c, 2), Top(c, 1), Top(c, 0));
              Now() == c.(rsp := c.rsp + 48, gprs := WithCallee(c.gprs, callee))
    {
      hide Top;
      ghost var c := Now();
      var r15 := PopWord(c, 0);
      var r14 := PopWord(c, 1);
      var r13 := PopWord(c, 2);
      var r12 := PopWord(c, 3);
      var rbx := PopWord(c, 4);
      var rbp := PopWord(c, 5);
      gprs := gprs.(r15 := r15, r14 := r14, r13 := r13, r12 := r12, rbx := rbx, rbp := rbp);
    }

    /** Delivery of the timer interrupt, then the fifteen pushes of `timer_interrupt_handler`. */
    method EnterHandler()
      requires rsp >= 0
      modifies this
      ensures Now() == HandlerEntered(old(Now())) && contexts == old(contexts)
    {
      hide PushAll;
      ghost var before := Now();
      var interrupted := rsp;
      rsp := rsp - rsp % 16;
      ghost var c := Now();
      ghost var done: seq<Word> := [];
      PushNothing(c);
      done := PushWord(ss, c, done);
      done := PushWord(interrupted, c, done);
      done := PushWord(rflags, c, done);
      done := PushWord(cs, c, done);
      done := PushWord(rip, c, done);
      assert done == InterruptWords(before, interrupted);
      PushGprs(c, done);
    }

    method PushGprs(ghost c: Cpu, ghost sofar: seq<Word>)
      requires Now() == PushAll(c, sofar)
      modifies this`rsp, this`mem
      ensures Now() == PushAll(c, sofar + GprWords(old(gprs)))
    {
      ghost var done := PushLowGprs(c, sofar);
      done := PushHighGprs(c, done);
      assert done == sofar + GprWords(gprs);
    }

    method PushLowGprs(ghost c: Cpu, ghost sofar: seq<Word>) returns (ghost done: seq<Word>)
      requires Now() == PushAll(c, sofar)
      modifies this`rsp, this`mem
      ensures Now() == PushAll(c, done) && done == sofar + GprWords(old(gprs))[..7]
    {
      hide PushAll;
      done := PushWord(gprs.rax, c, sofar);
      done := PushWord(gprs.rbx, c, done);
      done := PushWord(gprs.rcx, c, done);
      done := PushWord(gprs.rdx, c, done);
      done := PushWord(gprs.rsi, c, done);
      done := PushWord(gprs.rdi, c, done);
      done := PushWord(gprs.rbp, c, done);
      assert done == sofar + GprWords(gprs)[..7];
    }

    method PushHighGprs(ghost c: Cpu, ghost sofar: seq<Word>) returns (ghost done: seq<Word>)
      requires Now() == PushAll(c, sofar)
      modifies this`rsp, this`mem
      ensures Now() == PushAll(c, done) && done == sofar + GprWords(old(gprs))[7..]
    {
      hide PushAll;
      done := PushWord(gprs.r8, c, sofar);
      done := PushWord(gprs.r9, c, done);
      done := PushWord(gprs.r10, c, done);
      done := PushWord(gprs.r11, c, done);
      done := PushWord(gprs.r12, c, done);
      done := PushWord(gprs.r13, c, done);
      done := PushWord(gprs.r14, c, done);
      done := PushWord(gprs.r15, c, done);
      assert done == sofar + GprWords(gprs)[7..];
    }

    /** The fifteen pops and `iretq`. */
    method LeaveHandler()
      modifies this
      ensures Now() == HandlerLeft(old(Now())) && contexts == old(contexts)
    {
      ghost var c := Now();
      PopGprs();
      Iretq(c);
    }

    method PopGprs()
      modifies this`gprs, this`rsp
      ensures Now() == old(Now()).(rsp := old(rsp) + 120, gprs := PoppedGprs(old(Now())))
    {
      hide Top;
      ghost var c := Now();
      var r15, r14, r13, r12, r11, r10, r9, r8 := PopHighGprs(c);
      var rbp, rdi, rsi, rdx, rcx, rbx, rax := PopLowGprs(c);
      gprs := Gprs(rax, rbx, rcx, rdx, rsi, rdi, rbp, r8, r9, r10, r11, r12, r13, r14, r15);
    }

    /** Return from the interrupt that began with the frame above the fifteen registers of `c`. */
    method Iretq(ghost c: Cpu)
      requires Now() == c.(rsp := c.rsp + 120, gprs := PoppedGprs(c))
      modifies this`rip, this`cs, this`rflags, this`rsp, this`ss
      ensures Now() == HandlerLeft(c)
    {
      hide Top, PoppedGprs;
      ghost var frame := c.(gprs := gprs);
      var ip := PopWord(frame, 15);
      var code := PopWord(frame, 16);
      var flags := PopWord(frame, 17);
      var stack := PopWord(frame, 18);
      var data := PopWord(frame, 19);
      SameStack(c, frame);
      rip, cs, rflags, rsp, ss := ip, code, flags, stack, data;
    }

    method PopHighGprs(ghost c: Cpu)
      returns (r15: Word, r14: Word, r13: Word, r12: Word, r11: Word, r10: Word, r9: Word, r8: Word)
      requires Now() == c
      modifies this`rsp
      ensures Now() == c.(rsp := c.rsp + 64)
      ensures r15 == Top(c, 0) && r14 == Top(c, 1) && r13 == Top(c, 2) && r12 == Top(c, 3)
      ensures r11 == Top(c, 4) && r10 == Top(c, 5) && r9 == Top(c, 6) && r8 == Top(c, 7)
    {
      hide Top;
      r15 := PopWord(c, 0);
      r14 := PopWord(c, 1);
      r13 := PopWord(c, 2);
      r12 := PopWord(c, 3);
      r11 := PopWord(c, 4);
      r10 := PopWord(c, 5);
      r9 := PopWord(c, 6);
      r8 := PopWord(c, 7);
    }

    method PopLowGprs(ghost c: Cpu)
      returns (rbp: Word, rdi: Word, rsi: Word, rdx: Word, rcx: Word, rbx: Word, rax: Word)
      requires Now() == c.(rsp := c.rsp + 64)
      modifies this`rsp
      ensures Now() == c.(rsp := c.rsp + 120)
      ensures rbp == Top(c, 8) && rdi == Top(c, 9) && rsi == Top(c, 10) && rdx == Top(c, 11)
      ensures rcx == Top(c, 12) && rbx == Top(c, 13) && rax == Top(c, 14)
    {
      hide Top;
      rbp := PopWord(c, 8);
      rdi := PopWord(c, 9);
      rsi := PopWord(c, 10);
      rdx := PopWord(c, 11);
      rcx := PopWord(c, 12);
      rbx := PopWord(c, 13);
      rax := PopWord(c, 14);
    }

    /** `Task::new`: the first frame, written word by word through a decreasing pointer. */
    method NewTask(task: nat, top: int, trampoline: Word, entry: Word)
      modifies this`mem, this`contexts
      ensures task in contexts && (mem, contexts[task]) == FirstFrame(old(mem), top, trampoline, entry)
      ensures contexts == old(contexts)[task := top - 56]
    {
      var sp := top;
      sp := sp - 8;
      mem := mem[sp := trampoline];
      sp := sp - 8;
      mem := mem[sp := 0];
      sp := sp - 8;
      mem := mem[sp := 0];
      sp := sp - 8;
      mem := mem[sp := entry];
      sp := sp - 8;
      mem := mem[sp := 0];
      sp := sp - 8;
      mem := mem[sp := 0];
      sp := sp - 8;
      mem := mem[sp := 0];
      contexts := contexts[task := sp];
      PushSeven(old(mem), top, trampoline, entry);
    }
  }

  lemma PushSeven(m: Memory, top: int, trampoline: Word, entry: Word)
    ensures FirstFrame(m, top, trampoline, entry)
         == (m[top - 8 := trampoline][top - 16 := 0][top - 24 := 0][top - 32 := entry]
              [top - 40 := 0][top - 48 := 0][top - 56 := 0], top - 56)
  {
    var g := Gprs(0, 0, 0, 0, 0, 0, 0, 0, 0, 0, 0, 0, 0, 0, 0);
    var c := Cpu(g, top, 0, 0, 0, 0, m);
    PushNothing(c);
    PushOneMore(c, [], trampoline);
    PushOneMore(c, [trampoline], 0);
    PushOneMore(c, [trampoline, 0], 0);
    PushOneMore(c, [trampoline, 0, 0], entry);
    PushOneMore(c, [trampoline, 0, 0, entry], 0);
    PushOneMore(c, [trampoline, 0, 0, entry, 0], 0);
    PushOneMore(c, [trampoline, 0, 0, entry, 0, 0], 0);
    assert [] + [trampoline] == [trampoline] && [trampoline] + [0] == [trampoline, 0];
    assert [trampoline, 0] + [0] == [trampoline, 0, 0] && [trampoline, 0, 0] + [entry] == [trampoline, 0, 0, entry];
    assert [trampoline, 0, 0, entry] + [0] == [trampoline, 0, 0, entry, 0];
    assert [trampoline, 0, 0, entry, 0] + [0] == [trampoline, 0, 0, entry, 0, 0];
    assert [trampoline, 0, 0, entry, 0, 0] + [0] == [trampoline, 0, 0, entry, 0, 0, 0];
  }

  lemma PushNothing(c: Cpu)
    ensures PushAll(c, []) == c
  {
  }
}
