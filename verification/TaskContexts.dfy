/** The entry stubs under the tasks of this kernel: what task_create puts into a TSS is all they ask for. */
module TaskContexts {
  import opened CTypes
  import opened EntryStubs
  import opened InterruptedStubs
  import opened Interrupts
  import opened Syscalls
  import ArgumentBlock
  import Gdt
  import K = KernelState
  import KernelTasks
  import Paging
  import TaskSpec

  /** The processor executes user code of the task with the given context: code and stack segment are the task's, its
      kernel stack is the one in the TSS, and its stack pointer is any address at all. */
  ghost predicate RunsAs(p: Cpu, tss: K.Tss) {
    && WellFormed(p)
    && p.cs == tss.cs && p.ss == tss.ss && p.ss0 == tss.ss0 && p.esp0 == tss.esp0
    && 0 <= p.esp < WORD_SIZE
  }

  /** Neither its stack pointer nor its other registers matter to that. */
  lemma RunsAnywhere(p: Cpu, tss: K.Tss, esp: int, regs: Regs, eip: Word, eflags: Word)
    requires RunsAs(p, tss) && 0 <= esp < WORD_SIZE && WellFormed(p.(regs := regs))
    ensures RunsAs(p.(esp := esp, regs := regs, eip := eip, eflags := eflags), tss)
  {
    hide Get;
    var q := p.(esp := esp, regs := regs, eip := eip, eflags := eflags);
    assert forall r: Reg :: IsSegment(r) ==> Get(q.regs, r) == Get(p.(regs := regs).regs, r);
  }

  /** What the processor loads when it switches to a task for the first time. */
  function StartCpu(tss: K.Tss, mem: Mem): Cpu
    requires tss.eip < WORD_SIZE && tss.eflags < WORD_SIZE && tss.ebp < WORD_SIZE
    requires tss.cs < 0x1_0000 && tss.ss < 0x1_0000 && tss.ss0 < 0x1_0000
    requires tss.ds < 0x1_0000 && tss.es < 0x1_0000 && tss.fs < 0x1_0000 && tss.gs < 0x1_0000
  {
    Cpu(map[EBP := tss.ebp, DS := tss.ds, ES := tss.es, FS := tss.fs, GS := tss.gs], tss.esp, tss.eip, tss.eflags,
        tss.cs, tss.ss, mem, tss.ss0, tss.esp0)
  }

  /** A task starts in user mode with its own stacks, for every program that can be started. */
  lemma TaskStarts(c: K.Config, i: nat, image: seq<Byte>, argv: seq<seq<Byte>>, lay: TaskSpec.Layout, mem: Mem)
    requires |image| <= TaskSpec.MAX_IMAGE && ArgumentBlock.IsArgv(argv)
    ensures var tss := K.StartTss(c, i, TaskSpec.NewTask(image, argv, lay).esp);
            && tss.esp == tss.ebp < WORD_SIZE
            && RunsAs(StartCpu(tss, mem), tss) && FromUser(StartCpu(tss, mem))
            && StartCpu(tss, mem).eip == 0x4000_0000 && StartCpu(tss, mem).eflags / 512 % 2 == 1
            && StartCpu(tss, mem).esp0 == tss.cr3 + 0x4072 + 65536
            && tss.esp == 0x4000_0000 + |image| + |ArgumentBlock.Block(argv)| + 0x20_0000
  {
    ArgumentBlock.StringsSize(argv);
    hide K.SlotAddr;
  }

  /** The kernel stack of a task ends in the middle of a word: task_t is aligned to pages, and the 16-bit selector in
      front of the stack is not padded. Nothing in the stubs needs more. */
  lemma StackTopResidue(c: K.Config, i: nat, esp: nat)
    requires c.tasksAddr % 4096 == 0
    ensures K.StartTss(c, i, esp).esp0 % 4 == 2
  {
  }

  /** What the stubs need to know about the context of a user program. */
  predicate InUserMode(p: Cpu, esp0: int) {
    p.cs == K.USER_CODE && p.esp0 == esp0 && 0 <= p.esp < WORD_SIZE
  }

  lemma TaskInUserMode(k: KernelTasks.Kernel, d: nat, p: Cpu)
    requires k.Valid() && d < |k.live| && RunsAs(p, k.tasks[d].tss)
    ensures d < |k.tasks| && WellFormed(p) && InUserMode(p, k.tasks[d].tss.esp0)
    ensures k.tasks[d].tss.esp0 <= 0x4000_0000
  {
    assert K.SlotOk(k.config, k.tasks[d], k.gdt[Gdt.FIRST_TASK_INDEX + d], d, k.live[d], k.phys);
  }

  /** Whatever a live task is doing in user mode, an exception or interrupt leaves its context as it was. */
  lemma TaskInterrupted(k: KernelTasks.Kernel, d: nat, p: Cpu, e: Entry, body: Trace, guard: set<int>)
    requires k.Valid() && d < |k.live| && RunsAs(p, k.tasks[d].tss)
    requires HandlerBehaves(p, e, body, guard) && AllAbove(guard, k.tasks[d].tss.esp0)
    ensures Interruptible(p) && FromUser(p) && Top(p) == k.tasks[d].tss.esp0
    ensures Restored(p, Interrupt(p, e, body)) && Agree(p.mem, Interrupt(p, e, body).mem, guard)
  {
    hide *;
    TaskInUserMode(k, d, p);
    UserInterrupted(p, k.tasks[d].tss.esp0, e, body, guard);
  }

  lemma UserInterrupted(p: Cpu, esp0: int, e: Entry, body: Trace, guard: set<int>)
    requires WellFormed(p) && InUserMode(p, esp0)
    requires HandlerBehaves(p, e, body, guard) && AllAbove(guard, esp0)
    ensures Interruptible(p) && FromUser(p) && Top(p) == esp0
    ensures Restored(p, Interrupt(p, e, body)) && Agree(p.mem, Interrupt(p, e, body).mem, guard)
  {
    UserTop(p, esp0);
    hide *;
    ContextPreserved(p, e, body, guard);
  }

  lemma UserTop(p: Cpu, esp0: int)
    requires WellFormed(p) && InUserMode(p, esp0)
    ensures Interruptible(p) && FromUser(p) && Top(p) == esp0
  {
    hide WellFormed;
  }

  /** With a handler that returns at once nothing is left to assume. */
  lemma TaskResumes(k: KernelTasks.Kernel, d: nat, p: Cpu, e: Entry)
    requires k.Valid() && d < |k.live| && RunsAs(p, k.tasks[d].tss)
    ensures Restored(p, Interrupt(p, e, Done))
  {
    IdleHandler(p, e, {});
    assert AllAbove({}, k.tasks[d].tss.esp0);
    hide *;
    TaskInterrupted(k, d, p, e, Done, {});
  }

  /** A live task that calls syscall with its stack in its own address range is a caller as SystemCall wants it, and
      comes back from the call, however often its stubs and the handler are interrupted. The handlers of interrupts have
      to leave alone what the stubs have on the two stacks, and nothing else. */
  lemma TaskCalls(k: KernelTasks.Kernel, d: nat, p: Cpu, ret: Word, args: seq<Word>, x: CallInterrupts, kernelRet: Word,
                  handler: Trace, keep: set<int>)
    requires k.Valid() && d < |k.live| && RunsAs(p, k.tasks[d].tss)
    requires 0x4000_0000 + 24 <= p.esp
    requires |args| == 5 && Stacked(p.mem, p.esp, [ret] + args)
    requires CallArea(p) <= keep && CallOrderly(p, x, kernelRet, handler, keep)
    ensures Calling(p, ret, args)
    ensures var h := After(handler, AtCHandler(p, x, kernelRet));
            && CallCompleted(p, ret, BehindCall(h, x)) && Get(BehindCall(h, x).regs, EAX) == Get(h.regs, EAX)
            && SameBytes(h.mem, BehindCall(h, x).mem, p.esp0, keep)
  {
    hide *;
    TaskInUserMode(k, d, p);
    CallerMode(p, k.tasks[d].tss.esp0);
    UserCalls(p, ret, args);
    InterruptedCall(p, ret, args, x, kernelRet, handler, keep);
  }

  lemma UserCalls(p: Cpu, ret: Word, args: seq<Word>)
    requires WellFormed(p) && p.cs % 4 == 3 && p.esp0 + 24 <= p.esp && 24 <= p.esp < WORD_SIZE
    requires |args| == 5 && Stacked(p.mem, p.esp, [ret] + args)
    ensures Calling(p, ret, args)
  {
    hide WellFormed, Stacked;
  }

  lemma CallerMode(p: Cpu, esp0: int)
    requires InUserMode(p, esp0)
    ensures p.cs % 4 == 3 && p.esp0 == esp0 && p.esp < WORD_SIZE
  {
  }

  /** Without interrupts and with a handler that returns at once, again nothing is left to assume. */
  lemma TaskGetsBack(k: KernelTasks.Kernel, d: nat, p: Cpu, ret: Word, args: seq<Word>, kernelRet: Word)
    requires k.Valid() && d < |k.live| && RunsAs(p, k.tasks[d].tss)
    requires 0x4000_0000 + 24 <= p.esp
    requires |args| == 5 && Stacked(p.mem, p.esp, [ret] + args)
    ensures CallCompleted(p, ret, BehindCall(AtCHandler(p, QUIET, kernelRet), QUIET))
  {
    hide *;
    QuietCall(p, kernelRet, CallArea(p));
    TaskCalls(k, d, p, ret, args, QUIET, kernelRet, Done, CallArea(p));
  }

  /** Nor is it when the timer interrupts the stub: its tick counter lies behind the task table. */
  lemma TaskTicks(k: KernelTasks.Kernel, d: nat, p: Cpu, ret: Word, args: seq<Word>, kernelRet: Word, e: Entry, at: int,
                  v: Word)
    requires k.Valid() && d < |k.live| && RunsAs(p, k.tasks[d].tss)
    requires k.tasks[d].tss.esp0 <= at && at + 4 <= 0x4000_0000 && 0x4000_0000 + 24 <= p.esp
    requires |args| == 5 && Stacked(p.mem, p.esp, [ret] + args)
    ensures var x := Ticking(p, e, at, v); CallCompleted(p, ret, BehindCall(AtCHandler(p, x, kernelRet), x))
  {
    hide *;
    var x := Ticking(p, e, at, v);
    TaskInUserMode(k, d, p);
    UserTop(p, k.tasks[d].tss.esp0);
    CounterApart(p, k.tasks[d].tss.esp0, at);
    TickingCall(p, e, at, v, kernelRet);
    TaskCalls(k, d, p, ret, args, x, kernelRet, Done, CallArea(p));
    NothingDone(AtCHandler(p, x, kernelRet));
  }

  lemma NothingDone(c: Cpu)
    ensures After(Done, c) == c
  {
  }

  lemma CounterApart(p: Cpu, esp0: int, at: int)
    requires InUserMode(p, esp0) && esp0 <= at && at + 4 <= 0x4000_0000 && 0x4000_0000 + 24 <= p.esp
    ensures p.esp0 <= at && Span(at, 1) !! CallArea(p)
  {
  }
}
