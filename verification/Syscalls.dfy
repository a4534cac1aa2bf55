/** A system call from the user's stub to the C handler and back (user/syscall_asm.s, kernel/syscall/syscall_asm.s). */
module Syscalls {
  import opened CTypes
  import opened EntryStubs
  import opened Interrupts

  const USER_SAVED: seq<Reg> := [EBX, ECX, EDX, ESI, EDI]
  const SEGMENTS: seq<Reg> := [DS, ES, FS, GS]
  const ARGUMENTS: seq<Reg> := [ESI, EDX, ECX, EBX, EAX]

  const LOADED: seq<Reg> := [EAX, EBX, ECX, EDX, ESI]

  /** mov r, [ebp + offset] for one register after the other. */
  function Loads(rs: seq<Reg>, offset: int): seq<Instr> {
    if rs == [] then [] else [Load(rs[0], offset)] + Loads(rs[1..], offset + 4)
  }

  // ----- the two stubs, each up to the call and from it on -------------------------------------------

  /** syscall, up to int 48. */
  function UserEntryCode(): seq<Instr> {
    [Push(EBP)] + ([MovFromEsp(EBP)] + (Pushes(USER_SAVED) + Loads(LOADED, 8)))
  }

  function UserExitCode(): seq<Instr> {
    Pops(Reversed(USER_SAVED)) + ([MovToEsp(EBP)] + [Pop(EBP)])
  }

  /** _syscall_handler, up to the call. */
  function KernelEntryCode(): seq<Instr> {
    Pushes(SEGMENTS) + ([Push(EAX)] + (KernelSegments() + ([Pop(EAX)] + Pushes(ARGUMENTS))))
  }

  function KernelExitCode(): seq<Instr> {
    Pops([EBX, EBX, EBX, EBX, EBX]) + Pops(Reversed(SEGMENTS))
  }

  function UserEntry(c: Cpu): Cpu {
    Run(Loads(LOADED, 8), Run(Pushes(USER_SAVED), Step(MovFromEsp(EBP), Step(Push(EBP), c))))
  }

  /** int 48 through a trap gate and _syscall_handler up to the first instruction of the C handler. */
  function KernelEntry(u: Cpu, ret: Word): Cpu {
    var d := Run(Pushes(SEGMENTS), Deliver(u, None, false));
    var k := Step(Pop(EAX), Run(KernelSegments(), Step(Push(EAX), d)));
    PushWord(Run(Pushes(ARGUMENTS), k), ret)
  }

  function Ret(c: Cpu): Cpu {
    c.(eip := Read(c.mem, c.esp), esp := c.esp + 4)
  }

  /** From the return of the C handler to iret. */
  function KernelExit(c: Cpu): Cpu {
    Iret(Run(Pops(Reversed(SEGMENTS)), Run(Pops([EBX, EBX, EBX, EBX, EBX]), c.(esp := c.esp + 4))))
  }

  /** The rest of syscall. */
  function UserExit(c: Cpu): Cpu {
    Ret(Step(Pop(EBP), Step(MovToEsp(EBP), Run(Pops(Reversed(USER_SAVED)), c))))
  }

  lemma UserEntryRuns(c: Cpu)
    ensures Run(UserEntryCode(), c) == UserEntry(c)
  {
    hide Run, Step, Loads, Pushes;
    var rest := Pushes(USER_SAVED) + Loads(LOADED, 8);
    RunCons(Push(EBP), [MovFromEsp(EBP)] + rest, c);
    RunCons(MovFromEsp(EBP), rest, Step(Push(EBP), c));
    RunAppend(Pushes(USER_SAVED), Loads(LOADED, 8), Step(MovFromEsp(EBP), Step(Push(EBP), c)));
  }

  lemma UserExitRuns(c: Cpu)
    ensures UserExit(c) == Ret(Run(UserExitCode(), c))
  {
    hide Run, Step, Pops, Reversed, Ret;
    var d := Run(Pops(Reversed(USER_SAVED)), c);
    RunAppend(Pops(Reversed(USER_SAVED)), [MovToEsp(EBP)] + [Pop(EBP)], c);
    RunCons(MovToEsp(EBP), [Pop(EBP)], d);
    RunOne(Pop(EBP), Step(MovToEsp(EBP), d));
  }

  lemma KernelEntryRuns(d: Cpu)
    ensures Run(KernelEntryCode(), d)
            == Run(Pushes(ARGUMENTS), Step(Pop(EAX), Run(KernelSegments(), Step(Push(EAX), Run(Pushes(SEGMENTS), d)))))
  {
    hide Run, Step, Pushes, KernelSegments;
    var last := [Pop(EAX)] + Pushes(ARGUMENTS);
    var d1 := Run(Pushes(SEGMENTS), d);
    var d2 := Run(KernelSegments(), Step(Push(EAX), d1));
    RunAppend(Pushes(SEGMENTS), [Push(EAX)] + (KernelSegments() + last), d);
    RunCons(Push(EAX), KernelSegments() + last, d1);
    RunAppend(KernelSegments(), last, Step(Push(EAX), d1));
    RunCons(Pop(EAX), Pushes(ARGUMENTS), d2);
  }

  lemma KernelExitRuns(c: Cpu)
    ensures Run(KernelExitCode(), c) == Run(Pops(Reversed(SEGMENTS)), Run(Pops([EBX, EBX, EBX, EBX, EBX]), c))
  {
    hide Run, Pops, Reversed;
    RunAppend(Pops([EBX, EBX, EBX, EBX, EBX]), Pops(Reversed(SEGMENTS)), c);
  }

  /** A user program that has called syscall(nb, arg1, ..., arg4); the kernel stack lies below its own. */
  ghost predicate Calling(c: Cpu, ret: Word, args: seq<Word>) {
    && WellFormed(c) && FromUser(c)
    && |args| == 5 && Stacked(c.mem, c.esp, [ret] + args)
    && 24 <= c.esp < WORD_SIZE && c.esp0 <= c.esp - 24
  }

  lemma PushPop(c: Cpu, words: seq<Word>)
    requires Stacked(c.mem, c.esp, words)
    ensures var d := Step(Pop(EAX), Run(KernelSegments(), Step(Push(EAX), c)));
            && d == c.(regs := d.regs, mem := d.mem)
            && Stacked(d.mem, d.esp, words) && SameFrom(c.mem, d.mem, c.esp)
            && Get(d.regs, DS) == Get(d.regs, ES) == Get(d.regs, FS) == Get(d.regs, GS) == KERNEL_DATA
            && forall r: Reg :: !IsSegment(r) ==> Get(d.regs, r) == Get(c.regs, r)
  {
    hide Read, Write, Stacked;
    var v := Get(c.regs, EAX);
    var c1 := PushWord(c, v);
    StackedPush(c, words, v);
    SegmentsLoaded(c1);
    StackedDrop(c1.mem, c1.esp, [v] + words, 1);
    assert ([v] + words)[1..] == words;
    FirstWord(c1.mem, c1.esp, [v] + words);
  }

  /** The registers int 48 finds: number and arguments, the frame pointer, and the rest as the caller had it. */
  ghost predicate Loaded(c: Cpu, u: Cpu, args: seq<Word>)
    requires |args| == 5
  {
    && Get(u.regs, EAX) == args[0] && Get(u.regs, EBX) == args[1] && Get(u.regs, ECX) == args[2]
    && Get(u.regs, EDX) == args[3] && Get(u.regs, ESI) == args[4]
    && Get(u.regs, EBP) == c.esp - 4 && Get(u.regs, EDI) == Get(c.regs, EDI)
    && forall r: Reg :: IsSegment(r) ==> Get(u.regs, r) == Get(c.regs, r)
  }

  lemma {:induction false} LoadsRun(rs: seq<Reg>, offset: int, c: Cpu)
    requires Distinct(rs) && EBP !in rs && forall r | r in rs :: !IsSegment(r)
    ensures var d := Run(Loads(rs, offset), c);
            && d == c.(regs := d.regs)
            && (forall r: Reg :: r !in rs ==> Get(d.regs, r) == Get(c.regs, r))
            && (forall i | 0 <= i < |rs| :: Get(d.regs, rs[i]) == Read(c.mem, Get(c.regs, EBP) + offset + 4 * i))
    decreases |rs|
  {
    hide Get, Read, Write, PushWord;
    if rs != [] {
      var r, rest := rs[0], rs[1..];
      var c1 := Step(Load(r, offset), c);
      RunCons(Load(r, offset), Loads(rest, offset + 4), c);
      LoadStep(c, r, offset);
      hide Step, Run, Loads;
      assert r !in rest && forall x | x in rest :: x in rs;
      LoadsRun(rest, offset + 4, c1);
      ReadsShift(rs, Run(Loads(rs, offset), c).regs, c.mem, Get(c.regs, EBP) + offset);
    }
  }

  lemma ReadsShift(rs: seq<Reg>, regs: Regs, mem: Mem, at: int)
    requires rs != [] && Get(regs, rs[0]) == Read(mem, at)
    requires forall i | 0 <= i < |rs| - 1 :: Get(regs, rs[1..][i]) == Read(mem, at + 4 + 4 * i)
    ensures forall i | 0 <= i < |rs| :: Get(regs, rs[i]) == Read(mem, at + 4 * i)
  {
    hide Get, Read;
    forall i | 0 <= i < |rs|
      ensures Get(regs, rs[i]) == Read(mem, at + 4 * i)
    {
      if i > 0 {
        assert rs[i] == rs[1..][i - 1];
        assert at + 4 + 4 * (i - 1) == at + 4 * i;
      }
    }
  }

  lemma LoadStep(c: Cpu, r: Reg, offset: int)
    requires !IsSegment(r)
    ensures var d := Step(Load(r, offset), c);
            && d == c.(regs := d.regs)
            && Get(d.regs, r) == Read(c.mem, Get(c.regs, EBP) + offset)
            && forall x: Reg :: x != r ==> Get(d.regs, x) == Get(c.regs, x)
  {
  }

  lemma LoadsLoad(c: Cpu, u0: Cpu, args: seq<Word>)
    requires |args| == 5 && Get(u0.regs, EBP) == c.esp - 4 && Get(u0.regs, EDI) == Get(c.regs, EDI)
    requires forall r: Reg :: IsSegment(r) ==> Get(u0.regs, r) == Get(c.regs, r)
    requires Stacked(u0.mem, c.esp + 4, args)
    ensures var u := Run(Loads(LOADED, 8), u0); Loaded(c, u, args) && u == u0.(regs := u.regs)
  {
    hide Run, Loads, Get, Read, Write, Distinct, Stacked;
    LoadedRegisters();
    FiveWords(u0.mem, c.esp + 4, args);
    LoadsRun(LOADED, 8, u0);
    var u := Run(Loads(LOADED, 8), u0);
    assert Get(u.regs, LOADED[0]) == Read(u0.mem, c.esp + 4) && Get(u.regs, LOADED[1]) == Read(u0.mem, c.esp + 8);
    assert Get(u.regs, LOADED[2]) == Read(u0.mem, c.esp + 12) && Get(u.regs, LOADED[3]) == Read(u0.mem, c.esp + 16);
    assert Get(u.regs, LOADED[4]) == Read(u0.mem, c.esp + 20);
  }

  lemma LoadedRegisters()
    ensures |LOADED| == 5 && LOADED[0] == EAX && LOADED[1] == EBX && LOADED[2] == ECX && LOADED[3] == EDX
    ensures LOADED[4] == ESI
    ensures Distinct(LOADED) && EBP !in LOADED && EDI !in LOADED
    ensures forall r: Reg :: r in LOADED ==> !IsSegment(r)
  {
  }

  function UserWordsOf(c: Cpu): seq<Word> {
    Values(Reversed(USER_SAVED), c.regs) + [Get(c.regs, EBP)]
  }

  lemma EntersUser(c: Cpu, ret: Word, args: seq<Word>)
    requires Calling(c, ret, args)
    ensures var u := UserEntry(c);
            && Loaded(c, u, args)
            && u == c.(regs := u.regs, esp := c.esp - 24, mem := u.mem)
            && Stacked(u.mem, u.esp, UserWordsOf(c) + ([ret] + args)) && |UserWordsOf(c)| == 6
  {
    hide *;
    UserPushed(c, ret, args);
    FiveArguments(c, ret, args);
    ArgumentsAbove(UserStack(c).mem, UserStack(c).esp, UserWordsOf(c), ret, args);
    UserLoaded(c, UserStack(c), args);
  }

  lemma FiveArguments(c: Cpu, ret: Word, args: seq<Word>)
    requires Calling(c, ret, args)
    ensures |args| == 5
  {
  }

  lemma UserLoaded(c: Cpu, u: Cpu, args: seq<Word>)
    requires u == UserStack(c) && u.esp == c.esp - 24 && |args| == 5 && Stacked(u.mem, u.esp + 28, args)
    requires Get(u.regs, EBP) == c.esp - 4 && forall r: Reg :: r != EBP ==> Get(u.regs, r) == Get(c.regs, r)
    ensures Loaded(c, UserEntry(c), args) && UserEntry(c) == u.(regs := UserEntry(c).regs)
  {
    hide *;
    UserLoads(c);
    NoSegment(EBP);
    LoadsLoad(c, u, args);
  }

  lemma NoSegment(r: Reg)
    requires r.EBP?
    ensures forall s: Reg :: IsSegment(s) ==> s != r
  {
  }

  lemma UserLoads(c: Cpu)
    ensures UserEntry(c) == Run(Loads(LOADED, 8), UserStack(c))
  {
    hide Run, Step, Loads, Pushes;
  }

  lemma ArgumentsAbove(mem: Mem, at: int, saved: seq<Word>, ret: Word, args: seq<Word>)
    requires |saved| == 6 && Stacked(mem, at, saved + ([ret] + args))
    ensures Stacked(mem, at + 28, args)
  {
    hide Read, Write, Stacked;
    var all := saved + ([ret] + args);
    assert all[7..] == args;
    StackedDrop(mem, at, all, 7);
  }

  /** The state before the arguments are loaded. */
  function UserStack(c: Cpu): Cpu {
    Run(Pushes(USER_SAVED), Step(MovFromEsp(EBP), Step(Push(EBP), c)))
  }

  lemma UserPushed(c: Cpu, ret: Word, args: seq<Word>)
    requires Calling(c, ret, args)
    ensures var u := UserStack(c);
            && u == c.(regs := u.regs, esp := c.esp - 24, mem := u.mem)
            && Stacked(u.mem, u.esp, UserWordsOf(c) + ([ret] + args)) && |UserWordsOf(c)| == 6
            && Get(u.regs, EBP) == c.esp - 4 && forall r: Reg :: r != EBP ==> Get(u.regs, r) == Get(c.regs, r)
  {
    hide Read, Write;
    var words := [ret] + args;
    var ebp := Get(c.regs, EBP);
    StackedPush(c, words, ebp);
    var c2 := Step(MovFromEsp(EBP), PushWord(c, ebp));
    FramePointer(c, c2);
    assert Step(Push(EBP), c) == PushWord(c, ebp);
    UserFrame(c, c2.regs, words);
    hide Run, Get, Read, Write, Stacked, SameFrom, Step, Set, UserWordsOf, Values, Reversed, Pushes;
    PushList(USER_SAVED, c2, [ebp] + words);
  }

  lemma FramePointer(c: Cpu, c2: Cpu)
    requires 4 <= c.esp < WORD_SIZE && c2 == Step(MovFromEsp(EBP), PushWord(c, Get(c.regs, EBP)))
    ensures Get(c2.regs, EBP) == c.esp - 4 && forall r: Reg :: r != EBP ==> Get(c2.regs, r) == Get(c.regs, r)
    ensures c2 == PushWord(c, Get(c.regs, EBP)).(regs := c2.regs)
  {
  }

  lemma UserFrame(c: Cpu, regs: Regs, words: seq<Word>)
    requires forall r: Reg :: r != EBP ==> Get(regs, r) == Get(c.regs, r)
    ensures Reversed(Values(USER_SAVED, regs)) + ([Get(c.regs, EBP)] + words) == UserWordsOf(c) + words
    ensures |UserWordsOf(c)| == 6
  {
    assert Values(USER_SAVED, regs) == Values(USER_SAVED, c.regs);
    assert Reversed(Values(USER_SAVED, c.regs)) == Values(Reversed(USER_SAVED), c.regs);
  }

  lemma FiveWords(mem: Mem, at: int, args: seq<Word>)
    requires |args| == 5 && Stacked(mem, at, args)
    ensures Read(mem, at) == args[0] && Read(mem, at + 4) == args[1] && Read(mem, at + 8) == args[2]
    ensures Read(mem, at + 12) == args[3] && Read(mem, at + 16) == args[4]
  {
    hide Read, Write;
    assert Read(mem, at + 4 * 0) == args[0] && Read(mem, at + 4 * 1) == args[1] && Read(mem, at + 4 * 2) == args[2];
    assert Read(mem, at + 4 * 3) == args[3] && Read(mem, at + 4 * 4) == args[4];
  }

  // ----- kernel side ---------------------------------------------------------------------------------

  /** What lies on the kernel stack behind the arguments: the caller's segment registers and the iret frame. */
  function KernelWords(u: Cpu): seq<Word> {
    Values(Reversed(SEGMENTS), u.regs) + HardwareWords(u)
  }

  lemma KernelPushed(u: Cpu)
    ensures var d := Run(Pushes(SEGMENTS), Deliver(u, None, false));
            && Stacked(d.mem, d.esp, KernelWords(u)) && d.esp == Top(u) - 4 * |KernelWords(u)|
            && SameFrom(u.mem, d.mem, Top(u)) && d.regs == u.regs
            && d.cs == KERNEL_CODE && d.ss0 == u.ss0 && d.esp0 == u.esp0
  {
    hide Read, Write;
    var d0 := Deliver(u, None, false);
    DeliverStacked(u, None, false);
    var hw := HardwareWords(u);
    assert [] + hw == hw;
    assert Reversed(Values(SEGMENTS, u.regs)) == Values(Reversed(SEGMENTS), u.regs);
    hide Run, Deliver, HardwareWords, Stacked, SameFrom, Values, Reversed, Pushes, Top;
    PushList(SEGMENTS, d0, hw);
    SameFromChain(u.mem, d0.mem, Top(u), Run(Pushes(SEGMENTS), d0).mem, d0.esp);
  }

  /** The C handler finds its five arguments in order, on a kernel stack that leads back to the caller. */
  lemma ArgumentsDelivered(u: Cpu, ret: Word)
    requires FromUser(u)
    ensures var k := KernelEntry(u, ret);
            && Stacked(k.mem, k.esp, [ret] + (Values([EAX, EBX, ECX, EDX, ESI], u.regs) + KernelWords(u)))
            && k.esp == u.esp0 - 4 * (6 + |KernelWords(u)|)
            && SameFrom(u.mem, k.mem, u.esp0)
            && k.cs == KERNEL_CODE && k.ss0 == u.ss0 && k.esp0 == u.esp0
            && Get(k.regs, DS) == Get(k.regs, ES) == Get(k.regs, FS) == Get(k.regs, GS) == KERNEL_DATA
            && forall r: Reg :: !IsSegment(r) ==> Get(k.regs, r) == Get(u.regs, r)
  {
    KernelPushed(u);
    var d := Run(Pushes(SEGMENTS), Deliver(u, None, false));
    var words := KernelWords(u);
    PushPop(d, words);
    var k := Step(Pop(EAX), Run(KernelSegments(), Step(Push(EAX), d)));
    ArgumentOrder(k, u);
    hide Run, Deliver, Step, KernelSegments, KernelWords, Stacked, SameFrom, Values, Reversed, Pushes, Get, Read, Write;
    PushList(ARGUMENTS, k, words);
    var k2 := Run(Pushes(ARGUMENTS), k);
    StackedPush(k2, Values([EAX, EBX, ECX, EDX, ESI], u.regs) + words, ret);
    SameFromChain(u.mem, d.mem, u.esp0, k.mem, d.esp);
    SameFromChain(u.mem, k.mem, u.esp0, k2.mem, k.esp);
    PushOver(u.mem, k2, Values([EAX, EBX, ECX, EDX, ESI], u.regs) + words, ret, u.esp0);
  }

  /** The trap gate leaves the flags alone, so the C handler of a system call runs with interrupts enabled if its caller
      did; the handlers of interrupts never do (Interrupts.HandlerMasked). */
  lemma TrapKeepsFlags(u: Cpu, ret: Word)
    ensures KernelEntry(u, ret).eflags == u.eflags
  {
    hide Run, Deliver, Pushes, KernelSegments, Write, Read;
    var d0 := Deliver(u, None, false);
    var d := Run(Pushes(SEGMENTS), d0);
    MaskingInstructions(u, None);
    FlagsKept(Pushes(SEGMENTS), d0);
    KernelSegmentsKeepFlags(Step(Push(EAX), d));
    FlagsKept(Pushes(ARGUMENTS), Step(Pop(EAX), Run(KernelSegments(), Step(Push(EAX), d))));
  }

  lemma ArgumentOrder(k: Cpu, u: Cpu)
    requires forall r: Reg :: !IsSegment(r) ==> Get(k.regs, r) == Get(u.regs, r)
    ensures Reversed(Values(ARGUMENTS, k.regs)) == Values([EAX, EBX, ECX, EDX, ESI], u.regs)
  {
  }

  /** What the C handler must leave alone: its return address, what lies behind its arguments, and the user's stack. */
  ghost function CallGuard(u: Cpu, k: Cpu): set<int> {
    Span(k.esp, 1) + Span(k.esp + 24, |KernelWords(u)|) + Span(u.esp, 7)
  }

  /** Byte by byte: the return address, the saved segments and the iret frame, and the seven words on the user's stack.
      The five arguments are the handler's own. */
  lemma GuardBytes(u: Cpu, k: Cpu)
    requires FromUser(u)
    ensures forall a :: a in CallGuard(u, k) <==>
                        k.esp <= a < k.esp + 4 || k.esp + 24 <= a < k.esp + 60 || u.esp <= a < u.esp + 28
  {
    assert |Reversed(SEGMENTS)| == 4 && |KernelWords(u)| == 9;
    hide KernelWords;
    forall a
      ensures a in CallGuard(u, k)
              <==> k.esp <= a < k.esp + 4 || k.esp + 24 <= a < k.esp + 60 || u.esp <= a < u.esp + 28
    {
      assert InWords(a, k.esp, 1) <==> k.esp <= a < k.esp + 4;
      assert InWords(a, k.esp + 24, 9) <==> k.esp + 24 <= a < k.esp + 60;
      assert InWords(a, u.esp, 7) <==> u.esp <= a < u.esp + 28;
    }
  }

  ghost predicate CalleeSaved(k: Cpu, d: Cpu) {
    && Get(d.regs, EBX) == Get(k.regs, EBX) && Get(d.regs, ESI) == Get(k.regs, ESI)
    && Get(d.regs, EDI) == Get(k.regs, EDI) && Get(d.regs, EBP) == Get(k.regs, EBP)
  }

  /** The C handler from its first instruction k to its return d, under the cdecl convention: it may use eax, ecx, edx
      and its arguments, but keeps the rest of the stacks and the other registers. */
  ghost predicate Obeys(u: Cpu, k: Cpu, d: Cpu) {
    && d.esp == k.esp && d.cs == k.cs && d.ss0 == k.ss0 && d.esp0 == k.esp0
    && CalleeSaved(k, d) && Agree(k.mem, d.mem, CallGuard(u, k))
  }

  lemma PopFive(c: Cpu)
    ensures var d := Run(Pops([EBX, EBX, EBX, EBX, EBX]), c);
            && d == c.(regs := d.regs, esp := c.esp + 20)
            && forall r: Reg :: r != EBX ==> Get(d.regs, r) == Get(c.regs, r)
  {
    var rs := [EBX, EBX, EBX, EBX, EBX];
    var words := seq(5, i requires 0 <= i < 5 => Read(c.mem, c.esp + 4 * i));
    PopList(rs, c, words);
    forall r: Reg | r != EBX
      ensures Get(SetAll(c.regs, rs, words), r) == Get(c.regs, r)
    {
      SetAllKeeps(c.regs, rs, words, r);
    }
  }

  /** Popping a list of distinct registers that holds the values of was. */
  lemma PopsRestore(rs: seq<Reg>, c: Cpu, was: Regs, rest: seq<Word>)
    requires Distinct(rs) && forall r: Reg :: IsSegment(r) ==> Get(was, r) < 0x1_0000
    requires Stacked(c.mem, c.esp, Values(rs, was) + rest)
    ensures var d := Run(Pops(rs), c);
            && d == c.(regs := d.regs, esp := c.esp + 4 * |rs|)
            && Stacked(d.mem, d.esp, rest)
            && forall r: Reg :: Get(d.regs, r) == if r in rs then Get(was, r) else Get(c.regs, r)
  {
    hide Stacked, Run, Pops, Get, Read, Write, SetAll, Values;
    StackedSplit(c.mem, c.esp, Values(rs, was), rest);
    PopList(rs, c, Values(rs, was));
    SetAllExact(rs, c.regs, was);
  }

  lemma SetAllExact(rs: seq<Reg>, regs: Regs, was: Regs)
    requires Distinct(rs) && forall r: Reg :: IsSegment(r) ==> Get(was, r) < 0x1_0000
    ensures forall r: Reg :: Get(SetAll(regs, rs, Values(rs, was)), r) == if r in rs then Get(was, r) else Get(regs, r)
  {
    hide SetAll, Values, Get;
    forall r: Reg
      ensures Get(SetAll(regs, rs, Values(rs, was)), r) == if r in rs then Get(was, r) else Get(regs, r)
    {
      if r in rs {
        SetAllRestores(regs, rs, was, r);
      } else {
        SetAllKeeps(regs, rs, Values(rs, was), r);
      }
    }
  }

  lemma RegisterLists()
    ensures Distinct(Reversed(SEGMENTS)) && Distinct(Reversed(USER_SAVED))
    ensures |Reversed(SEGMENTS)| == 4 && |Reversed(USER_SAVED)| == 5
    ensures forall r: Reg :: r in Reversed(SEGMENTS) <==> IsSegment(r)
    ensures forall r: Reg :: r in Reversed(USER_SAVED) || r == EBP <==> SavedByUser(r)
    ensures EBP !in Reversed(USER_SAVED)
  {
    assert Reversed(SEGMENTS) == [GS, FS, ES, DS] && Reversed(USER_SAVED) == [EDI, ESI, EDX, ECX, EBX];
    forall r: Reg
      ensures r in [GS, FS, ES, DS] <==> IsSegment(r)
    {
    }
  }

  /** iret finds the caller again; of the registers only ebx may differ, which user code saves. */
  lemma LeavesKernel(u: Cpu, d: Cpu)
    requires Interruptible(u) && FromUser(u) && d.cs == KERNEL_CODE && d.ss0 == u.ss0 && d.esp0 == u.esp0
    requires Stacked(d.mem, d.esp + 24, KernelWords(u)) && d.esp == u.esp0 - 4 * (6 + |KernelWords(u)|)
    ensures var v := KernelExit(d);
            && v == u.(regs := v.regs, mem := d.mem)
            && forall r: Reg :: r != EBX ==> Get(v.regs, r) == if IsSegment(r) then Get(u.regs, r) else Get(d.regs, r)
  {
    RegisterLists();
    var d0 := d.(esp := d.esp + 4);
    PopFive(d0);
    var d1 := Run(Pops([EBX, EBX, EBX, EBX, EBX]), d0);
    assert |KernelWords(u)| == 4 + |HardwareWords(u)|;
    assert |HardwareWords(u)| == 5;
    hide Run, Pops, Stacked, Get, Read, Write, Distinct, Values, Reversed, HardwareWords, Iret;
    PopsRestore(Reversed(SEGMENTS), d1, u.regs, HardwareWords(u));
    var d2 := Run(Pops(Reversed(SEGMENTS)), d1);
    IretRestores(u, d2);
  }

  /** The rest of the user's stub finds what it saved. */
  lemma LeavesUser(c: Cpu, ret: Word, v: Cpu, rest: seq<Word>)
    requires WellFormed(c) && Stacked(v.mem, v.esp, UserWordsOf(c) + ([ret] + rest))
    requires v.esp == c.esp - 24 && Get(v.regs, EBP) == c.esp - 4
    ensures var f := UserExit(v);
            && f == v.(regs := f.regs, esp := c.esp + 4, eip := ret)
            && (forall r: Reg :: SavedByUser(r) ==> Get(f.regs, r) == Get(c.regs, r))
            && (forall r: Reg :: !SavedByUser(r) ==> Get(f.regs, r) == Get(v.regs, r))
  {
    RegisterLists();
    var tail := [Get(c.regs, EBP)] + ([ret] + rest);
    assert UserWordsOf(c) + ([ret] + rest) == Values(Reversed(USER_SAVED), c.regs) + tail;
    hide Run, Pops, Stacked, Get, Read, Write, Distinct, Values, Reversed, UserWordsOf;
    PopsRestore(Reversed(USER_SAVED), v, c.regs, tail);
    var v1 := Run(Pops(Reversed(USER_SAVED)), v);
    FinishUser(c, v1, ret, tail);
  }

  lemma FinishUser(c: Cpu, v1: Cpu, ret: Word, tail: seq<Word>)
    requires |tail| >= 2 && tail[0] == Get(c.regs, EBP) && tail[1] == ret
    requires Stacked(v1.mem, v1.esp, tail) && v1.esp == c.esp - 4 && Get(v1.regs, EBP) == c.esp - 4
    ensures var f := Ret(Step(Pop(EBP), Step(MovToEsp(EBP), v1)));
            && f == v1.(regs := f.regs, esp := c.esp + 4, eip := ret)
            && Get(f.regs, EBP) == Get(c.regs, EBP)
            && forall r: Reg :: r != EBP ==> Get(f.regs, r) == Get(v1.regs, r)
  {
    assert Read(v1.mem, v1.esp + 4 * 0) == tail[0] && Read(v1.mem, v1.esp + 4 * 1) == tail[1];
  }

  lemma UserState(c: Cpu, u: Cpu, args: seq<Word>)
    requires WellFormed(c) && FromUser(c) && 24 <= c.esp < WORD_SIZE
    requires |args| == 5 && Loaded(c, u, args) && u == c.(regs := u.regs, esp := c.esp - 24, mem := u.mem)
    ensures Interruptible(u) && FromUser(u) && Values([EAX, EBX, ECX, EDX, ESI], u.regs) == args
  {
    hide Read, Write;
  }

  /** The registers that the user's stub saves. */
  predicate SavedByUser(r: Reg) {
    r.EBX? || r.ECX? || r.EDX? || r.ESI? || r.EDI? || r.EBP?
  }

  /** What the handler must not touch is as it was when it returns: on the kernel stack and on the user's. */
  lemma HandlerKept(u: Cpu, k: Cpu, d: Cpu, ret: Word, args: seq<Word>, user: seq<Word>, tail: seq<Word>)
    requires |args| == 5 && |user| == 7 && u.esp >= u.esp0
    requires Stacked(u.mem, u.esp, user + tail) && SameFrom(u.mem, k.mem, u.esp0)
    requires Stacked(k.mem, k.esp, [ret] + (args + KernelWords(u))) && Obeys(u, k, d)
    ensures Stacked(d.mem, d.esp + 24, KernelWords(u)) && Stacked(d.mem, u.esp, user) && Read(d.mem, d.esp) == ret
  {
    hide *;
    ObeysParts(u, k, d);
    KernelKept(k.mem, d.mem, k.esp, ret, args, KernelWords(u));
    UserKept(u.mem, k.mem, d.mem, u.esp, u.esp0, user, tail);
  }

  lemma ObeysParts(u: Cpu, k: Cpu, d: Cpu)
    requires Obeys(u, k, d)
    ensures d.esp == k.esp && Read(k.mem, k.esp) == Read(d.mem, k.esp)
    ensures Agree(k.mem, d.mem, Span(k.esp + 24, |KernelWords(u)|)) && Agree(k.mem, d.mem, Span(u.esp, 7))
  {
    hide Agree, Span, KernelWords, Read, CalleeSaved;
    AgreeParts(k.mem, d.mem, k.esp, Span(k.esp + 24, |KernelWords(u)|), Span(u.esp, 7));
  }

  lemma KernelKept(m1: Mem, m2: Mem, at: int, ret: Word, args: seq<Word>, words: seq<Word>)
    requires |args| == 5 && Stacked(m1, at, [ret] + (args + words))
    requires Read(m1, at) == Read(m2, at) && Agree(m1, m2, Span(at + 24, |words|))
    ensures Stacked(m2, at + 24, words) && Read(m2, at) == ret
  {
    hide Stacked, Agree, Read, Span;
    StackedSplit(m1, at, [ret], args + words);
    StackedSplit(m1, at + 4, args, words);
    FirstWord(m1, at, [ret]);
    StackedAgree(m1, m2, at + 24, words);
  }

  lemma UserKept(m0: Mem, m1: Mem, m2: Mem, at: int, from: int, user: seq<Word>, tail: seq<Word>)
    requires Stacked(m0, at, user + tail) && SameFrom(m0, m1, from) && from <= at
    requires Agree(m1, m2, Span(at, |user|))
    ensures Stacked(m2, at, user)
  {
    hide Stacked, Agree, Read, Span, SameFrom;
    StackedSplit(m0, at, user, tail);
    SpanFrom(m0, m1, from, at, |user|);
    StackedAgree(m0, m1, at, user);
    StackedAgree(m1, m2, at, user);
  }

  lemma AgreeParts(m1: Mem, m2: Mem, a: int, s: set<int>, t: set<int>)
    requires Agree(m1, m2, Span(a, 1) + s + t)
    ensures Read(m1, a) == Read(m2, a) && Agree(m1, m2, s) && Agree(m1, m2, t)
  {
    hide Read, ByteAt, Span;
    var all := Span(a, 1) + s + t;
    WordAgrees(m1, m2, a, all);
    assert forall x | x in s :: x in all;
    assert forall x | x in t :: x in all;
  }

  lemma SpanFrom(m1: Mem, m2: Mem, from: int, at: int, n: nat)
    requires SameFrom(m1, m2, from) && from <= at
    ensures Agree(m1, m2, Span(at, n))
  {
    SameBytesFrom(m1, m2, from);
    hide Read, ByteAt, SameFrom;
  }

  /** The caller continues behind its call: all registers but eax, the flags, the segments and the stack pointer are as
      before, the return address is popped. */
  ghost predicate CallCompleted(c: Cpu, ret: Word, f: Cpu) {
    && f == c.(regs := f.regs, mem := f.mem, esp := c.esp + 4, eip := ret)
    && forall r: Reg :: r != EAX ==> Get(f.regs, r) == Get(c.regs, r)
  }

  /** A system call as the user program sees it: number and arguments reach the handler in order, the handler's result
      comes back in eax, everything else but eip and the popped return address is as before the call. */
  lemma SystemCall(c: Cpu, ret: Word, args: seq<Word>, kernelRet: Word, d: Cpu)
    requires Calling(c, ret, args)
    requires var u := UserEntry(c); Obeys(u, KernelEntry(u, kernelRet), d)
    ensures var k := KernelEntry(UserEntry(c), kernelRet);
            && Stacked(k.mem, k.esp, [kernelRet] + args)
            && Get(k.regs, DS) == Get(k.regs, ES) == Get(k.regs, FS) == Get(k.regs, GS) == KERNEL_DATA
            && Read(d.mem, d.esp) == kernelRet
    ensures var f := UserExit(KernelExit(d));
            CallCompleted(c, ret, f) && f.mem == d.mem && Get(f.regs, EAX) == Get(d.regs, EAX)
  {
    hide Read, Write, PushWord;
    CallArrives(c, ret, args, kernelRet);
    var u := UserEntry(c);
    var k := KernelEntry(u, kernelRet);
    var user := UserWordsOf(c) + [ret];
    hide KernelEntry, UserEntry, KernelExit, UserExit, Stacked, SameFrom, Get, Read, KernelWords, UserWordsOf;
    hide Interruptible, SavedByUser, IsSegment, CallCompleted;
    CallStacked(k, kernelRet, args, KernelWords(u));
    assert user == UserWordsOf(c) + ([ret] + []);
    HandlerKept(u, k, d, kernelRet, args, user, args);
    CallReturns(c, ret, u, k, d, args);
  }

  /** The trap gate leaves interrupts enabled. A handler that is interrupted any number of times, to any depth, still
      obeys, as long as it and the handlers of the interrupts behave and it hands back the registers cdecl asks for. */
  lemma InterruptedHandler(u: Cpu, ret: Word, t: Trace)
    requires FromUser(u) && u.esp0 <= u.esp
    requires var k := KernelEntry(u, ret); Behaves(t, k, CallGuard(u, k), k.esp) && CalleeSaved(k, After(t, k))
    ensures var k := KernelEntry(u, ret); Obeys(u, k, After(t, k))
  {
    var k := KernelEntry(u, ret);
    ArgumentsDelivered(u, ret);
    hide KernelEntry, KernelWords, Behaves, After, Stacked, SameFrom, Read, Get, CalleeSaved, Obeys;
    KernelWellFormed(k);
    HandlerObeys(u, k, t);
  }

  lemma HandlerObeys(u: Cpu, k: Cpu, t: Trace)
    requires WellFormed(k) && k.cs == KERNEL_CODE && k.esp <= u.esp
    requires Behaves(t, k, CallGuard(u, k), k.esp) && CalleeSaved(k, After(t, k))
    ensures Obeys(u, k, After(t, k))
  {
    hide KernelWords, Behaves, After, Agree, Get, CalleeSaved;
    GuardsAbove(u.esp, k.esp, |KernelWords(u)|);
    TraceKeeps(t, k, CallGuard(u, k), k.esp);
  }

  lemma GuardsAbove(user: int, kernel: int, size: nat)
    requires kernel <= user
    ensures AllAbove(Span(kernel, 1) + Span(kernel + 24, size) + Span(user, 7), kernel)
  {
  }

  /** The user's stub and the kernel's, executed up to the first instruction of the C handler. */
  method EnterCHandler(p: Processor, kernelRet: Word)
    modifies p
    ensures p.state == KernelEntry(UserEntry(old(p.state)), kernelRet)
  {
    hide *;
    UserEntryRuns(p.state);
    KernelEntryIs(UserEntry(p.state), kernelRet);
    p.Execute(UserEntryCode());
    p.state := Deliver(p.state, None, false);
    p.Execute(KernelEntryCode());
    p.state := PushWord(p.state, kernelRet);
  }

  lemma KernelEntryIs(u: Cpu, ret: Word)
    ensures KernelEntry(u, ret) == PushWord(Run(KernelEntryCode(), Deliver(u, None, false)), ret)
  {
    KernelEntryRuns(Deliver(u, None, false));
    hide Run, Deliver, PushWord, KernelEntryCode;
  }

  lemma KernelExitIs(d: Cpu)
    ensures KernelExit(d) == Iret(Run(KernelExitCode(), d.(esp := d.esp + 4)))
  {
    KernelExitRuns(d.(esp := d.esp + 4));
    hide Run, Iret, KernelExitCode;
  }

  /** The return of the C handler, and the rest of both stubs. */
  method LeaveCHandler(p: Processor)
    modifies p
    ensures p.state == UserExit(KernelExit(old(p.state)))
  {
    hide *;
    KernelExitIs(p.state);
    UserExitRuns(KernelExit(p.state));
    p.state := p.state.(esp := p.state.esp + 4);
    p.Execute(KernelExitCode());
    p.state := Iret(p.state);
    p.Execute(UserExitCode());
    p.state := Ret(p.state);
  }

  /** The processor executes both stubs of a system call around the run of the C handler, nested interrupts included. */
  method ServeCall(p: Processor, kernelRet: Word, handler: Trace, ghost ret: Word, ghost args: seq<Word>)
    requires Calling(p.state, ret, args)
    requires var u := UserEntry(p.state);
             var k := KernelEntry(u, kernelRet);
             Behaves(handler, k, CallGuard(u, k), k.esp) && CalleeSaved(k, After(handler, k))
    modifies p
    ensures CallCompleted(old(p.state), ret, p.state)
  {
    hide *;
    CallServed(p.state, ret, args, kernelRet, handler);
    EnterCHandler(p, kernelRet);
    p.state := After(handler, p.state);
    LeaveCHandler(p);
  }

  lemma CallServed(c: Cpu, ret: Word, args: seq<Word>, kernelRet: Word, handler: Trace)
    requires Calling(c, ret, args)
    requires var u := UserEntry(c);
             var k := KernelEntry(u, kernelRet);
             Behaves(handler, k, CallGuard(u, k), k.esp) && CalleeSaved(k, After(handler, k))
    ensures CallCompleted(c, ret, UserExit(KernelExit(After(handler, KernelEntry(UserEntry(c), kernelRet)))))
  {
    StubReached(c, ret, args);
    hide *;
    InterruptedHandler(UserEntry(c), kernelRet, handler);
    SystemCall(c, ret, args, kernelRet, After(handler, KernelEntry(UserEntry(c), kernelRet)));
  }

  lemma StubReached(c: Cpu, ret: Word, args: seq<Word>)
    requires Calling(c, ret, args)
    ensures FromUser(UserEntry(c)) && UserEntry(c).esp0 <= UserEntry(c).esp
  {
    CallArrives(c, ret, args, 0);
    hide KernelEntry, UserEntry, Stacked, SameFrom, Get, Read, Write, KernelWords, UserWordsOf, Loaded, Interruptible;
  }

  lemma CallReturns(c: Cpu, ret: Word, u: Cpu, k: Cpu, d: Cpu, args: seq<Word>)
    requires WellFormed(c) && Interruptible(u) && FromUser(u) && |args| == 5 && Loaded(c, u, args)
    requires u == c.(regs := u.regs, esp := c.esp - 24, mem := u.mem)
    requires k.cs == KERNEL_CODE && k.ss0 == u.ss0 && k.esp0 == u.esp0 && k.esp == u.esp0 - 4 * (6 + |KernelWords(u)|)
    requires forall r: Reg :: !IsSegment(r) ==> Get(k.regs, r) == Get(u.regs, r)
    requires Obeys(u, k, d) && Stacked(d.mem, d.esp + 24, KernelWords(u))
    requires Stacked(d.mem, u.esp, UserWordsOf(c) + ([ret] + []))
    ensures var f := UserExit(KernelExit(d));
            CallCompleted(c, ret, f) && f.mem == d.mem && Get(f.regs, EAX) == Get(d.regs, EAX)
  {
    hide KernelExit, UserExit, Stacked, Get, Read, Write;
    hide KernelWords, UserWordsOf, Interruptible, Agree, Span, WellFormed;
    LeavesKernel(u, d);
    LeavesUser(c, ret, KernelExit(d), []);
    assert forall r: Reg :: r != EAX ==> SavedByUser(r) || IsSegment(r);
  }

  lemma CallArrives(c: Cpu, ret: Word, args: seq<Word>, kernelRet: Word)
    requires Calling(c, ret, args)
    ensures var u := UserEntry(c);
            var k := KernelEntry(u, kernelRet);
            && Interruptible(u) && FromUser(u) && Loaded(c, u, args)
            && u == c.(regs := u.regs, esp := c.esp - 24, mem := u.mem)
            && Stacked(u.mem, u.esp, UserWordsOf(c) + [ret] + args) && |UserWordsOf(c)| == 6
            && Stacked(k.mem, k.esp, [kernelRet] + (args + KernelWords(u)))
            && k.esp == u.esp0 - 4 * (6 + |KernelWords(u)|) && SameFrom(u.mem, k.mem, u.esp0)
            && k.cs == KERNEL_CODE && k.ss0 == u.ss0 && k.esp0 == u.esp0
            && Get(k.regs, DS) == Get(k.regs, ES) == Get(k.regs, FS) == Get(k.regs, GS) == KERNEL_DATA
            && forall r: Reg :: !IsSegment(r) ==> Get(k.regs, r) == Get(u.regs, r)
  {
    EntersUser(c, ret, args);
    hide KernelEntry, UserEntry, Stacked, SameFrom, Get, Read, Write, KernelWords, UserWordsOf, Loaded, Interruptible;
    assert UserWordsOf(c) + ([ret] + args) == UserWordsOf(c) + [ret] + args;
    UserState(c, UserEntry(c), args);
    ArgumentsDelivered(UserEntry(c), kernelRet);
  }

  lemma CallStacked(k: Cpu, ret: Word, args: seq<Word>, rest: seq<Word>)
    requires Stacked(k.mem, k.esp, [ret] + (args + rest))
    ensures Stacked(k.mem, k.esp, [ret] + args)
  {
    var words := [ret] + (args + rest);
    FrontStacked(k.mem, k.esp, words, 1 + |args|);
    assert words[..1 + |args|] == [ret] + args;
  }
}
