/** Exceptions and hardware interrupts: delivery by the processor, the wrappers around the C handlers and any nesting of
    them (kernel/interrupt/idt_asm.s). */
module Interrupts {
  import opened CTypes
  import opened EntryStubs

  datatype Option<T> = None | Some(value: T)

  /** Registers in the order in which isr_wrapper pushes them. */
  const SAVED: seq<Reg> := [EAX, EBX, ECX, EDX, ESI, EDI, EBP, DS, ES, FS, GS]

  /** Vectors with a gate in the IDT: exceptions 0 to 20, and the 16 hardware interrupts from 32 on. */
  type Vector = v: int | 0 <= v <= 20 || 32 <= v < 48

  /** Vectors for which the processor pushes an error code (table 6-1 in volume 3A of the Intel 64 and IA-32
      Architectures Software Developer's Manual). */
  const ERROR_CODE_VECTORS: set<int> := {8, 10, 11, 12, 13, 14, 17}

  /** An exception or interrupt: its vector, the error code, which counts only if the processor pushes one, and the
      address to which the C handler returns inside the wrapper. */
  datatype Entry = Entry(vector: Vector, code: Word, ret: Word)

  function PushedCode(e: Entry): Option<Word> {
    if e.vector in ERROR_CODE_VECTORS then Some(e.code) else None
  }

  predicate FromUser(c: Cpu) {
    c.cs % 4 == 3
  }

  /** Where the processor starts to push: the kernel stack of the TSS if it comes from user mode. */
  function Top(c: Cpu): int {
    if FromUser(c) then c.esp0 else c.esp
  }

  /** From user mode: the kernel stack, with the user's stack pointer on it. */
  function StackSwitch(c: Cpu): Cpu {
    if FromUser(c) then PushWord(PushWord(c.(esp := c.esp0, ss := c.ss0), c.ss), Wrap(c.esp)) else c
  }

  /** Interrupt delivery; an interrupt gate also clears the interrupt flag. */
  function Deliver(c: Cpu, code: Option<Word>, interruptGate: bool): Cpu {
    var f := PushWord(PushWord(PushWord(StackSwitch(c), c.eflags), c.cs), c.eip);
    var g := if code.None? then f else PushWord(f, code.value);
    g.(cs := KERNEL_CODE, eflags := if interruptGate then ClearInterruptFlag(c.eflags) else c.eflags)
  }

  function Iret(c: Cpu): Cpu {
    var cs := Read(c.mem, c.esp + 4);
    var r := c.(eip := Read(c.mem, c.esp), cs := cs, eflags := Read(c.mem, c.esp + 8), esp := c.esp + 12);
    if cs % 4 > c.cs % 4 then r.(esp := Read(c.mem, c.esp + 12), ss := Read(c.mem, c.esp + 16)) else r
  }

  /** What the processor has pushed, without the error code. */
  function HardwareWords(c: Cpu): seq<Word> {
    [c.eip, c.cs, c.eflags] + UserWords(c)
  }

  function UserWords(c: Cpu): seq<Word> {
    if FromUser(c) then [Wrap(c.esp), c.ss] else []
  }

  lemma SwitchStacked(c: Cpu)
    ensures var s := StackSwitch(c);
            && Stacked(s.mem, s.esp, UserWords(c)) && SameFrom(c.mem, s.mem, Top(c))
            && s.esp == Top(c) - 4 * |UserWords(c)|
            && s == c.(esp := s.esp, ss := s.ss, mem := s.mem) && s.ss == if FromUser(c) then c.ss0 else c.ss
  {
    hide Read, Write;
  }

  lemma DeliverStacked(c: Cpu, code: Option<Word>, gate: bool)
    ensures var d := Deliver(c, code, gate);
            var words := (if code.None? then [] else [code.value]) + HardwareWords(c);
            && Stacked(d.mem, d.esp, words) && d.esp == Top(c) - 4 * |words|
            && SameFrom(c.mem, d.mem, Top(c))
            && d.regs == c.regs && d.cs == KERNEL_CODE && d.ss0 == c.ss0 && d.esp0 == c.esp0
            && d.ss == if FromUser(c) then c.ss0 else c.ss
  {
    hide Stacked, SameFrom, Read, Top, StackSwitch, UserWords, FromUser;
    var user := UserWords(c);
    var s := StackSwitch(c);
    SwitchStacked(c);
    PushOver(c.mem, s, user, c.eflags, Top(c));
    var s1 := PushWord(s, c.eflags);
    PushOver(c.mem, s1, [c.eflags] + user, c.cs, Top(c));
    var s2 := PushWord(s1, c.cs);
    PushOver(c.mem, s2, [c.cs] + ([c.eflags] + user), c.eip, Top(c));
    var s3 := PushWord(s2, c.eip);
    assert [c.eip] + ([c.cs] + ([c.eflags] + user)) == HardwareWords(c);
    if code.Some? {
      PushOver(c.mem, s3, HardwareWords(c), code.value, Top(c));
    } else {
      assert [] + HardwareWords(c) == HardwareWords(c);
    }
  }

  /** A push onto known words, with the memory from a given address on still as in m. */
  lemma PushOver(m: Mem, c: Cpu, words: seq<Word>, v: Word, from: int)
    requires Stacked(c.mem, c.esp, words) && SameFrom(m, c.mem, from) && c.esp <= from
    ensures Stacked(PushWord(c, v).mem, c.esp - 4, [v] + words) && SameFrom(m, PushWord(c, v).mem, from)
  {
    StackedPush(c, words, v);
  }

  // ----- the stubs -------------------------------------------------------------------------------------

  /** The three macros that make an entry stub, with their argument. */
  datatype Stub = ExceptionWithCode(n: Word) | ExceptionWithoutCode(n: Word) | Irq(n: Word)

  /** The exception stubs in the order of the file, which is the order of the gates. */
  const EXCEPTIONS: seq<Stub> := [
    ExceptionWithoutCode(0), ExceptionWithoutCode(1), ExceptionWithoutCode(2), ExceptionWithoutCode(3),
    ExceptionWithoutCode(4), ExceptionWithoutCode(5), ExceptionWithoutCode(6), ExceptionWithoutCode(7),
    ExceptionWithCode(8), ExceptionWithoutCode(9), ExceptionWithCode(10), ExceptionWithCode(11),
    ExceptionWithCode(12), ExceptionWithCode(13), ExceptionWithCode(14), ExceptionWithoutCode(15),
    ExceptionWithoutCode(16), ExceptionWithCode(17), ExceptionWithoutCode(18), ExceptionWithoutCode(19),
    ExceptionWithoutCode(20)]

  /** The stub that idt_init puts into the gate of a vector. */
  function StubOf(v: Vector): Stub {
    if v <= 20 then EXCEPTIONS[v] else Irq(v - 32)
  }

  function StubCode(stub: Stub): seq<Instr> {
    match stub
    case ExceptionWithCode(n) => [Cli, PushImm(n)]
    case ExceptionWithoutCode(n) => [Cli, PushImm(0), PushImm(n)]
    case Irq(n) => [Cli, PushImm(0), PushImm(n)]
  }

  function EntryCode(e: Entry): seq<Instr> {
    StubCode(StubOf(e.vector))
  }

  /** Of the stub and the processor exactly one pushes an error code, for every vector, and the stub pushes the number
      that the C handler is to see: that of the exception or that of the hardware interrupt. */
  lemma StubsComplement(v: Vector)
    ensures StubOf(v).ExceptionWithCode? <==> v in ERROR_CODE_VECTORS
    ensures v in ERROR_CODE_VECTORS <==> v in {8, 10, 11, 12, 13, 14, 17}
    ensures StubOf(v).n == if v < 32 then v else v - 32
    ensures StubOf(v).Irq? <==> v >= 32
  {
    assert EXCEPTIONS[8].ExceptionWithCode? && EXCEPTIONS[17].ExceptionWithCode?;
  }

  function MovSegments(rs: seq<Reg>): seq<Instr> {
    if rs == [] then [] else [MovSegment(rs[0])] + MovSegments(rs[1..])
  }

  function KernelSegments(): seq<Instr> {
    [MovAx(KERNEL_DATA)] + MovSegments([DS, ES, FS, GS])
  }

  const PASS_CONTEXT: seq<Instr> := [MovFromEsp(EAX), Push(EAX)]

  /** The entry stub and the wrapper up to the call. */
  function Prologue(e: Entry): seq<Instr> {
    EntryCode(e) + (Pushes(SAVED) + (KernelSegments() + PASS_CONTEXT))
  }

  /** The wrapper from the call to iret. */
  function Epilogue(): seq<Instr> {
    [Pop(EAX)] + (Pops(Reversed(SAVED)) + [AddEsp(8)])
  }

  /** The state at the first instruction of the C handler. */
  function AtHandler(c: Cpu, e: Entry): Cpu {
    PushWord(Run(Prologue(e), Deliver(c, PushedCode(e), true)), e.ret)
  }

  /** The return of the C handler, the rest of the wrapper and iret. */
  function LeaveHandler(c: Cpu): Cpu {
    Iret(Run(Epilogue(), c.(esp := c.esp + 4)))
  }

  /** The fields number and error_code of regs_t: a 0 where the processor pushes no error code. */
  function EntryWords(e: Entry): seq<Word> {
    [if e.vector < 32 then e.vector else e.vector - 32, if e.vector in ERROR_CODE_VECTORS then e.code else 0]
  }

  /** regs_t of idt.c: gs, fs, es, ds, ebp, edi, esi, edx, ecx, ebx, eax, number, error_code, eip, cs, eflags and, from
      user mode, esp and ss. The same for every entry; without an error code there is a 0. */
  function Frame(c: Cpu, e: Entry): seq<Word> {
    [Get(c.regs, GS), Get(c.regs, FS), Get(c.regs, ES), Get(c.regs, DS), Get(c.regs, EBP), Get(c.regs, EDI),
     Get(c.regs, ESI), Get(c.regs, EDX), Get(c.regs, ECX), Get(c.regs, EBX), Get(c.regs, EAX)]
    + (EntryWords(e) + HardwareWords(c))
  }

  lemma RunCons(i: Instr, p: seq<Instr>, c: Cpu)
    ensures Run([i] + p, c) == Run(p, Step(i, c))
  {
    assert ([i] + p)[1..] == p;
  }

  lemma EntryStacked(c: Cpu, e: Entry)
    ensures var d := Run(EntryCode(e), Deliver(c, PushedCode(e), true));
            var words := EntryWords(e) + HardwareWords(c);
            && Stacked(d.mem, d.esp, words) && d.esp == Top(c) - 4 * |words|
            && SameFrom(c.mem, d.mem, Top(c))
            && d.regs == c.regs && d.cs == KERNEL_CODE && d.ss0 == c.ss0 && d.esp0 == c.esp0
            && d.ss == if FromUser(c) then c.ss0 else c.ss
  {
    var d := Deliver(c, PushedCode(e), true);
    var hw := HardwareWords(c);
    DeliverStacked(c, PushedCode(e), true);
    EntryRuns(e, d);
    hide Deliver, HardwareWords, EntryCode, Run, Stacked, SameFrom, Read, Write, Top, StackSwitch, UserWords, Get;
    var cleared := Step(Cli, d);
    if PushedCode(e).None? {
      assert [] + hw == hw;
      TwoPushed(c.mem, cleared, hw, 0, EntryWords(e)[0], Top(c));
      assert [EntryWords(e)[0], 0] == EntryWords(e);
    } else {
      assert [EntryWords(e)[0]] + ([e.code] + hw) == EntryWords(e) + hw;
      PushOver(c.mem, cleared, [e.code] + hw, EntryWords(e)[0], Top(c));
    }
  }

  lemma TwoPushed(m: Mem, c: Cpu, words: seq<Word>, v: Word, w: Word, from: int)
    requires Stacked(c.mem, c.esp, words) && SameFrom(m, c.mem, from) && c.esp <= from
    ensures var d := PushWord(PushWord(c, v), w);
            Stacked(d.mem, c.esp - 8, [w, v] + words) && SameFrom(m, d.mem, from)
  {
    hide Stacked, SameFrom;
    PushOver(m, c, words, v, from);
    PushOver(m, PushWord(c, v), [v] + words, w, from);
    assert [w] + ([v] + words) == [w, v] + words;
  }

  lemma EntryRuns(e: Entry, d: Cpu)
    ensures var cleared := Step(Cli, d);
            Run(EntryCode(e), d)
            == PushWord(if PushedCode(e).None? then PushWord(cleared, 0) else cleared, EntryWords(e)[0])
  {
    StubsComplement(e.vector);
    hide StubOf, Step;
    var n := EntryWords(e)[0];
    var cleared := Step(Cli, d);
    if PushedCode(e).None? {
      assert EntryCode(e) == [Cli] + ([PushImm(0)] + [PushImm(n)]);
      RunCons(Cli, [PushImm(0)] + [PushImm(n)], d);
      RunCons(PushImm(0), [PushImm(n)], cleared);
      PushImmIs(0, cleared);
      RunOne(PushImm(n), PushWord(cleared, 0));
      PushImmIs(n, PushWord(cleared, 0));
    } else {
      assert EntryCode(e) == [Cli] + [PushImm(n)];
      RunCons(Cli, [PushImm(n)], d);
      RunOne(PushImm(n), cleared);
      PushImmIs(n, cleared);
    }
  }

  lemma PushImmIs(v: Word, c: Cpu)
    ensures Step(PushImm(v), c) == PushWord(c, v)
  {
  }

  lemma {:induction false} SegmentsMoved(rs: seq<Reg>, c: Cpu)
    requires forall i | 0 <= i < |rs| :: IsSegment(rs[i])
    ensures var c' := Run(MovSegments(rs), c);
            && c' == c.(regs := c'.regs)
            && (forall r: Reg :: r in rs ==> Get(c'.regs, r) == Get(c.regs, EAX) % 0x1_0000)
            && (forall r: Reg :: r !in rs ==> Get(c'.regs, r) == Get(c.regs, r))
    decreases |rs|
  {
    if rs != [] {
      RunCons(MovSegment(rs[0]), MovSegments(rs[1..]), c);
      SegmentsMoved(rs[1..], Step(MovSegment(rs[0]), c));
      assert rs == [rs[0]] + rs[1..];
    }
  }

  /** Loading the kernel data selector touches the data segments and ax only. */
  lemma SegmentsLoaded(c: Cpu)
    ensures var c' := Run(KernelSegments(), c);
            && c' == c.(regs := c'.regs)
            && Get(c'.regs, DS) == Get(c'.regs, ES) == Get(c'.regs, FS) == Get(c'.regs, GS) == KERNEL_DATA
            && forall r: Reg :: !IsSegment(r) && r != EAX ==> Get(c'.regs, r) == Get(c.regs, r)
  {
    var c1 := Step(MovAx(KERNEL_DATA), c);
    assert Get(c1.regs, EAX) % 0x1_0000 == KERNEL_DATA;
    RunCons(MovAx(KERNEL_DATA), MovSegments([DS, ES, FS, GS]), c);
    SegmentsMoved([DS, ES, FS, GS], c1);
    hide MovSegments, Run;
    assert forall r: Reg :: r in [DS, ES, FS, GS] <==> IsSegment(r);
    assert IsSegment(DS) && IsSegment(ES) && IsSegment(FS) && IsSegment(GS);
  }

  /** mov eax, esp; push eax; call. */
  lemma ContextPassed(c: Cpu, frame: seq<Word>, ret: Word)
    requires Stacked(c.mem, c.esp, frame)
    ensures var h := PushWord(Run(PASS_CONTEXT, c), ret);
            && Stacked(h.mem, h.esp, [ret, Wrap(h.esp + 8)] + frame)
            && h == c.(regs := h.regs, esp := c.esp - 8, mem := h.mem)
            && SameFrom(c.mem, h.mem, c.esp)
            && forall r: Reg :: r != EAX ==> Get(h.regs, r) == Get(c.regs, r)
  {
    hide Read, Write, Stacked;
    var d := Step(MovFromEsp(EAX), c);
    RunCons(MovFromEsp(EAX), [Push(EAX)], c);
    RunCons(Push(EAX), [], d);
    assert [MovFromEsp(EAX)] + [Push(EAX)] == PASS_CONTEXT && [Push(EAX)] + [] == [Push(EAX)];
    StackedPush(d, frame, Wrap(c.esp));
    StackedPush(PushWord(d, Wrap(c.esp)), [Wrap(c.esp)] + frame, ret);
    assert [ret] + ([Wrap(c.esp)] + frame) == [ret, Wrap(c.esp)] + frame;
  }

  /** The C handler finds one uniform frame, a pointer to it as its argument, and the kernel's data segments. */
  lemma HandlerFrame(c: Cpu, e: Entry)
    ensures var h := AtHandler(c, e);
            && Stacked(h.mem, h.esp, [e.ret, Wrap(h.esp + 8)] + Frame(c, e))
            && h.esp == Top(c) - 4 * (2 + |Frame(c, e)|)
            && SameFrom(c.mem, h.mem, Top(c))
            && h.cs == KERNEL_CODE == 8 && h.ss0 == c.ss0 && h.esp0 == c.esp0 && (!FromUser(c) ==> h.ss == c.ss)
            && Get(h.regs, DS) == Get(h.regs, ES) == Get(h.regs, FS) == Get(h.regs, GS) == KERNEL_DATA == 16
  {
    var d := Deliver(c, PushedCode(e), true);
    var d1 := Run(EntryCode(e), d);
    EntryStacked(c, e);
    var words := EntryWords(e) + HardwareWords(c);
    FrameIs(c, e, words);
    hide Deliver, EntryCode, Frame, Run, Step, Get;
    hide Set, Read, HardwareWords, MovSegments, KernelSegments, Stacked, SameFrom;
    PushList(SAVED, d1, words);
    var d2 := Run(Pushes(SAVED), d1);
    SegmentsLoaded(d2);
    var d3 := Run(KernelSegments(), d2);
    ContextPassed(d3, Frame(c, e), e.ret);
    PrologueRuns(c, e);
    hide AtHandler, Pushes, Reversed, Values;
    SameFromChain(c.mem, d1.mem, Top(c), d2.mem, d1.esp);
    SameFromChain(c.mem, d2.mem, Top(c), AtHandler(c, e).mem, d2.esp);
  }

  lemma PrologueRuns(c: Cpu, e: Entry)
    ensures AtHandler(c, e)
            == (var saved := Run(Pushes(SAVED), Run(EntryCode(e), Deliver(c, PushedCode(e), true)));
                PushWord(Run(PASS_CONTEXT, Run(KernelSegments(), saved)), e.ret))
  {
    hide Run, Deliver, EntryCode, Pushes, KernelSegments;
    var d := Deliver(c, PushedCode(e), true);
    RunAppend(EntryCode(e), Pushes(SAVED) + (KernelSegments() + PASS_CONTEXT), d);
    RunAppend(Pushes(SAVED), KernelSegments() + PASS_CONTEXT, Run(EntryCode(e), d));
    RunAppend(KernelSegments(), PASS_CONTEXT, Run(Pushes(SAVED), Run(EntryCode(e), d)));
  }

  lemma SameFromChain(m1: Mem, m2: Mem, a: int, m3: Mem, b: int)
    requires SameFrom(m1, m2, a) && SameFrom(m2, m3, b) && b <= a
    ensures SameFrom(m1, m3, a)
  {
  }

  lemma FrameIs(c: Cpu, e: Entry, words: seq<Word>)
    requires words == EntryWords(e) + HardwareWords(c)
    ensures Frame(c, e) == Reversed(Values(SAVED, c.regs)) + words && |Frame(c, e)| == 11 + |words|
  {
    SavedWords(c.regs);
  }

  lemma SavedWords(regs: Regs)
    ensures Reversed(Values(SAVED, regs))
            == [Get(regs, GS), Get(regs, FS), Get(regs, ES), Get(regs, DS), Get(regs, EBP), Get(regs, EDI),
                Get(regs, ESI), Get(regs, EDX), Get(regs, ECX), Get(regs, EBX), Get(regs, EAX)]
  {
    hide Get;
  }

  // ----- flags -----------------------------------------------------------------------------------------

  /** Bit 9, the interrupt flag, is 0 and all other bits are those of the given flags. */
  predicate Masked(eflags: Word, before: Word) {
    eflags / 512 % 2 == 0 && eflags / 1024 == before / 1024 && eflags % 512 == before % 512
  }

  /** cli masks interrupts. So does an interrupt gate; a trap gate leaves the flags alone. */
  lemma MaskingInstructions(c: Cpu, code: Option<Word>)
    ensures Masked(Step(Cli, c).eflags, c.eflags)
    ensures Masked(Deliver(c, code, true).eflags, c.eflags)
    ensures Deliver(c, code, false).eflags == c.eflags
  {
    hide Write, Read;
    ClearedFlag(c.eflags);
  }

  lemma ClearedFlag(eflags: Word)
    ensures Masked(ClearInterruptFlag(eflags), eflags)
  {
    var upper: int, flag: int, lower: int := eflags / 1024, eflags / 512 % 2, eflags % 512;
    assert eflags == 1024 * upper + 512 * flag + lower;
    FlagParts(upper, flag, lower);
    FlagParts(upper, 0, lower);
  }

  lemma FlagParts(upper: int, flag: int, lower: int)
    requires 0 <= flag < 2 && 0 <= lower < 512
    ensures var n := 1024 * upper + 512 * flag + lower;
            n / 1024 == upper && n / 512 % 2 == flag && n % 512 == lower
  {
    assert (1024 * upper + 512 * flag + lower) / 512 == 2 * upper + flag;
  }

  lemma {:induction false} FlagsKept(program: seq<Instr>, c: Cpu)
    requires Cli !in program
    ensures Run(program, c).eflags == c.eflags
    decreases |program|
  {
    hide Write, Read, Get, Set;
    if program != [] {
      FlagsKept(program[1..], Step(program[0], c));
    }
  }

  lemma KernelSegmentsKeepFlags(c: Cpu)
    ensures Cli !in KernelSegments() && Run(KernelSegments(), c).eflags == c.eflags
  {
    assert KernelSegments() == [MovAx(KERNEL_DATA), MovSegment(DS), MovSegment(ES), MovSegment(FS), MovSegment(GS)] by {
      assert MovSegments([]) == [] && MovSegments([GS]) == [MovSegment(GS)];
      assert [DS, ES, FS, GS][1..] == [ES, FS, GS] && [ES, FS, GS][1..] == [FS, GS] && [FS, GS][1..] == [GS];
    }
    FlagsKept(KernelSegments(), c);
  }

  /** Every stub masks interrupts, whatever gate led to it. */
  lemma StubMasks(e: Entry, d: Cpu)
    ensures Masked(Run(EntryCode(e), d).eflags, d.eflags)
  {
    EntryRuns(e, d);
    hide EntryCode, Run, Write, EntryWords;
    MaskingInstructions(d, None);
  }

  /** The C handler of every exception and hardware interrupt starts with interrupts disabled and all other flags as
      they were. */
  lemma HandlerMasked(c: Cpu, e: Entry)
    ensures Masked(AtHandler(c, e).eflags, c.eflags)
  {
    hide EntryCode, Run, Deliver, Pushes, KernelSegments, AtHandler, Write;
    var d := Deliver(c, PushedCode(e), true);
    var d1 := Run(EntryCode(e), d);
    MaskingInstructions(c, PushedCode(e));
    StubMasks(e, d);
    PrologueRuns(c, e);
    FlagsKept(Pushes(SAVED), d1);
    KernelSegmentsKeepFlags(Run(Pushes(SAVED), d1));
    FlagsKept(PASS_CONTEXT, Run(KernelSegments(), Run(Pushes(SAVED), d1)));
  }

  // ----- leaving ---------------------------------------------------------------------------------------

  /** Kernel or user mode; a user stack pointer is a 32-bit address. */
  ghost predicate Interruptible(c: Cpu) {
    && WellFormed(c) && c.cs % 4 in {0, 3}
    && (FromUser(c) ==> 0 <= c.esp < WORD_SIZE)
  }

  /** Everything but memory is as it was. */
  ghost predicate Restored(c: Cpu, c': Cpu) {
    && SameRegs(c.regs, c'.regs)
    && c' == c.(regs := c'.regs, mem := c'.mem)
  }

  lemma IretRestores(c: Cpu, d: Cpu)
    requires Interruptible(c) && d.cs == KERNEL_CODE
    requires Stacked(d.mem, d.esp, HardwareWords(c)) && d.esp == Top(c) - 4 * |HardwareWords(c)|
    requires d.ss0 == c.ss0 && d.esp0 == c.esp0 && (!FromUser(c) ==> d.ss == c.ss)
    ensures Iret(d) == c.(regs := d.regs, mem := d.mem)
  {
    hide Read, Write;
    var words := HardwareWords(c);
    assert Read(d.mem, d.esp + 4 * 0) == words[0] && Read(d.mem, d.esp + 4 * 1) == words[1];
    assert Read(d.mem, d.esp + 4 * 2) == words[2];
    if FromUser(c) {
      assert Read(d.mem, d.esp + 4 * 3) == words[3] && Read(d.mem, d.esp + 4 * 4) == words[4];
    }
  }

  lemma SavedIsAll()
    ensures Distinct(Reversed(SAVED)) && forall r: Reg :: r in Reversed(SAVED)
  {
    var ps := Reversed(SAVED);
    assert ps == [GS, FS, ES, DS, EBP, EDI, ESI, EDX, ECX, EBX, EAX];
    forall r: Reg
      ensures r in ps
    {
      var i := match r
        case EAX => 10 case EBX => 9 case ECX => 8 case EDX => 7 case ESI => 6 case EDI => 5
        case EBP => 4 case DS => 3 case ES => 2 case FS => 1 case GS => 0;
      assert ps[i] == r;
    }
  }

  lemma AllRestored(regs: Regs, c: Cpu)
    requires WellFormed(c)
    ensures SameRegs(c.regs, SetAll(regs, Reversed(SAVED), Values(Reversed(SAVED), c.regs)))
  {
    SavedIsAll();
    forall r: Reg
      ensures Get(c.regs, r) == Get(SetAll(regs, Reversed(SAVED), Values(Reversed(SAVED), c.regs)), r)
    {
      SetAllRestores(regs, Reversed(SAVED), c.regs, r);
    }
  }

  lemma EpilogueRuns(c: Cpu)
    ensures Run(Epilogue(), c) == Step(AddEsp(8), Run(Pops(Reversed(SAVED)), Step(Pop(EAX), c)))
  {
    hide Run, Pops, Reversed, Step;
    RunCons(Pop(EAX), Pops(Reversed(SAVED)) + [AddEsp(8)], c);
    RunAppend(Pops(Reversed(SAVED)), [AddEsp(8)], Step(Pop(EAX), c));
    RunOne(AddEsp(8), Run(Pops(Reversed(SAVED)), Step(Pop(EAX), c)));
  }

  lemma RunOne(i: Instr, c: Cpu)
    ensures Run([i], c) == Step(i, c)
  {
    RunCons(i, [], c);
    assert [i] + [] == [i];
  }

  /** With the frame intact, the rest of the wrapper brings back every register, the flags and the stack pointer. */
  lemma LeaveRestores(c: Cpu, e: Entry, h: Cpu)
    requires Interruptible(c) && h.cs == KERNEL_CODE
    requires Stacked(h.mem, h.esp + 8, Frame(c, e)) && h.esp == Top(c) - 4 * (2 + |Frame(c, e)|)
    requires h.ss0 == c.ss0 && h.esp0 == c.esp0 && (!FromUser(c) ==> h.ss == c.ss)
    ensures Restored(c, LeaveHandler(h)) && LeaveHandler(h).mem == h.mem
  {
    hide Frame, HardwareWords, Stacked, Run, Step, Pops, Iret, Reversed, Values, Interruptible, Restored;
    var ps := Reversed(SAVED);
    var frame := Frame(c, e);
    FrameParts(c, e);
    var d1 := Step(Pop(EAX), h.(esp := h.esp + 4));
    PopIs(EAX, h.(esp := h.esp + 4));
    FrontStacked(d1.mem, d1.esp, frame, 11);
    StackedDrop(d1.mem, d1.esp, frame, 13);
    PopList(ps, d1, Values(ps, c.regs));
    var d2 := Run(Pops(ps), d1);
    EpilogueRuns(h.(esp := h.esp + 4));
    Unwound(c, d1, d2);
  }

  lemma PopIs(r: Reg, c: Cpu)
    ensures Step(Pop(r), c) == c.(regs := Step(Pop(r), c).regs, esp := c.esp + 4)
  {
  }

  lemma FrameParts(c: Cpu, e: Entry)
    ensures |Frame(c, e)| == 13 + |HardwareWords(c)|
    ensures Frame(c, e)[..11] == Values(Reversed(SAVED), c.regs) && Frame(c, e)[13..] == HardwareWords(c)
  {
    SavedWords(c.regs);
    hide Get, HardwareWords;
    assert Values(Reversed(SAVED), c.regs) == Reversed(Values(SAVED, c.regs));
  }

  lemma Unwound(c: Cpu, d1: Cpu, d2: Cpu)
    requires Interruptible(c) && d1.cs == KERNEL_CODE
    requires d2 == d1.(regs := SetAll(d1.regs, Reversed(SAVED), Values(Reversed(SAVED), c.regs)), esp := d1.esp + 44)
    requires Stacked(d1.mem, d1.esp + 52, HardwareWords(c)) && d1.esp + 52 == Top(c) - 4 * |HardwareWords(c)|
    requires d1.ss0 == c.ss0 && d1.esp0 == c.esp0 && (!FromUser(c) ==> d1.ss == c.ss)
    ensures Restored(c, Iret(Step(AddEsp(8), d2))) && Iret(Step(AddEsp(8), d2)).mem == d1.mem
  {
    AllRestored(d1.regs, c);
    IretRestores(c, Step(AddEsp(8), d2));
  }

  lemma FrontStacked(mem: Mem, at: int, words: seq<Word>, n: nat)
    requires Stacked(mem, at, words) && n <= |words|
    ensures Stacked(mem, at, words[..n])
  {
  }

  // ----- nesting ---------------------------------------------------------------------------------------

  ghost predicate AllAbove(addrs: set<int>, low: int) {
    forall a | a in addrs :: a >= low
  }

  /** A run of a C handler: steps of its own, each given by the state it leads to, and interrupts in between, each with
      the run of its own handler. */
  datatype Trace =
    | Done
    | Own(next: Cpu, rest: Trace)
    | Nested(e: Entry, body: Trace, rest: Trace)

  function After(t: Trace, c: Cpu): Cpu
    decreases t, 0
  {
    match t
    case Done => c
    case Own(next, rest) => After(rest, next)
    case Nested(e, body, rest) => After(rest, Interrupt(c, e, body))
  }

  /** Delivery, stub, wrapper, handler, wrapper, iret. */
  function Interrupt(c: Cpu, e: Entry, body: Trace): Cpu
    decreases body, 1
  {
    LeaveHandler(After(body, AtHandler(c, e)))
  }

  /** The handler stays in kernel mode and on its stack, writes to none of the guarded addresses and returns with the
      stack pointer it started from. */
  ghost predicate Behaves(t: Trace, c: Cpu, guard: set<int>, start: int)
    decreases t, 0
  {
    match t
    case Done => c.esp == start
    case Own(next, rest) =>
      && WellFormed(next) && next.esp <= start
      && next.cs == c.cs && next.ss == c.ss && next.ss0 == c.ss0 && next.esp0 == c.esp0
      && Agree(c.mem, next.mem, guard)
      && Behaves(rest, next, guard, start)
    case Nested(e, body, rest) =>
      HandlerBehaves(c, e, body, guard) && Behaves(rest, Interrupt(c, e, body), guard, start)
  }

  /** The handler of one interrupt leaves alone what was guarded before, its return address and the saved frame. */
  ghost predicate HandlerBehaves(c: Cpu, e: Entry, body: Trace, guard: set<int>)
    decreases body, 1
  {
    var h := AtHandler(c, e);
    Behaves(body, h, guard + Span(h.esp, 1) + Span(h.esp + 8, |Frame(c, e)|), h.esp)
  }

  /** A handler that returns at once behaves, in every state and whatever is guarded. */
  lemma IdleHandler(c: Cpu, e: Entry, guard: set<int>)
    ensures HandlerBehaves(c, e, Done, guard)
  {
    hide AtHandler, Frame;
  }

  /** A handler that is itself interrupted, and does nothing else, behaves as well. */
  lemma InterruptedIdle(c: Cpu, e: Entry, inner: Entry)
    requires Interruptible(c)
    ensures HandlerBehaves(c, e, Nested(inner, Done, Done), {})
  {
    hide *;
    var h := AtHandler(c, e);
    HandlerStart(c, e);
    var guard := {} + Span(h.esp, 1) + Span(h.esp + 8, |Frame(c, e)|);
    GuardAbove({}, h.esp, h.esp, |Frame(c, e)|) by {
      NothingAbove(h.esp);
    }
    IdleHandler(h, inner, guard);
    KernelTop(h);
    ContextPreserved(h, inner, Done, guard);
    OneNested(h, inner, guard);
    HandlerUnfolds(c, e, Nested(inner, Done, Done), {});
  }

  lemma NothingAbove(low: int)
    ensures AllAbove({}, low)
  {
  }

  lemma KernelTop(h: Cpu)
    ensures h.cs == KERNEL_CODE ==> Top(h) == h.esp
  {
  }

  lemma OneNested(h: Cpu, inner: Entry, guard: set<int>)
    requires HandlerBehaves(h, inner, Done, guard) && Restored(h, Interrupt(h, inner, Done))
    ensures Behaves(Nested(inner, Done, Done), h, guard, h.esp)
  {
    hide HandlerBehaves, Interrupt, SameRegs;
    assert Behaves(Done, Interrupt(h, inner, Done), guard, h.esp);
  }

  lemma {:induction false} TraceKeeps(t: Trace, c: Cpu, guard: set<int>, start: int)
    requires Behaves(t, c, guard, start) && Interruptible(c) && c.cs == KERNEL_CODE && c.esp <= start
    requires AllAbove(guard, start)
    ensures var d := After(t, c);
            && d.esp == start && d.cs == KERNEL_CODE && d.ss == c.ss && d.ss0 == c.ss0 && d.esp0 == c.esp0
            && Agree(c.mem, d.mem, guard)
    decreases t, 0
  {
    match t
    case Done =>
    case Own(next, rest) =>
      TraceKeeps(rest, next, guard, start);
    case Nested(e, body, rest) =>
      ContextPreserved(c, e, body, guard);
      var c' := Interrupt(c, e, body);
      TraceKeeps(rest, c', guard, start);
  }

  /** Context preservation, for every machine state and every depth of nesting: an exception or interrupt whose handlers
      behave leaves every register, the flags, the stack pointer, the guarded memory and the interrupted instruction as
      they were, and each handler returns into its wrapper. */
  lemma {:induction false} ContextPreserved(c: Cpu, e: Entry, body: Trace, guard: set<int>)
    requires Interruptible(c) && HandlerBehaves(c, e, body, guard)
    requires AllAbove(guard, Top(c))
    ensures Restored(c, Interrupt(c, e, body))
    ensures Agree(c.mem, Interrupt(c, e, body).mem, guard)
    ensures var d := After(body, AtHandler(c, e)); Read(d.mem, d.esp) == e.ret
    decreases body, 1
  {
    hide *;
    HandlerUnfolds(c, e, body, guard);
    HandlerStart(c, e);
    var h := AtHandler(c, e);
    var guard' := guard + Span(h.esp, 1) + Span(h.esp + 8, |Frame(c, e)|);
    GuardAbove(guard, Top(c), h.esp, |Frame(c, e)|);
    TraceKeeps(body, h, guard', h.esp);
    FrameSurvives(c, e, After(body, h), guard);
    LeaveRestores(c, e, After(body, h));
  }

  lemma HandlerUnfolds(c: Cpu, e: Entry, body: Trace, guard: set<int>)
    ensures var h := AtHandler(c, e);
            && HandlerBehaves(c, e, body, guard)
               == Behaves(body, h, guard + Span(h.esp, 1) + Span(h.esp + 8, |Frame(c, e)|), h.esp)
            && Interrupt(c, e, body) == LeaveHandler(After(body, h))
  {
    hide AtHandler, LeaveHandler, Behaves, After, Frame, Span;
  }

  lemma GuardAbove(guard: set<int>, top: int, esp: int, size: nat)
    requires AllAbove(guard, top) && esp <= top
    ensures AllAbove(guard + Span(esp, 1) + Span(esp + 8, size), esp)
  {
  }

  lemma HandlerStart(c: Cpu, e: Entry)
    requires Interruptible(c)
    ensures var h := AtHandler(c, e);
            && Interruptible(h) && h.cs == KERNEL_CODE && h.ss0 == c.ss0 && h.esp0 == c.esp0
            && (!FromUser(c) ==> h.ss == c.ss)
            && h.esp == Top(c) - 4 * (2 + |Frame(c, e)|)
  {
    HandlerFrame(c, e);
    hide AtHandler, Frame, Stacked, SameFrom, HardwareWords, Get;
    KernelWellFormed(AtHandler(c, e));
  }

  lemma KernelWellFormed(h: Cpu)
    requires Get(h.regs, DS) == Get(h.regs, ES) == Get(h.regs, FS) == Get(h.regs, GS) == KERNEL_DATA
    ensures WellFormed(h)
  {
    hide Get;
  }

  /** What was guarded while the handler ran is still there. */
  lemma FrameSurvives(c: Cpu, e: Entry, d: Cpu, guard: set<int>)
    requires var h := AtHandler(c, e);
             d.esp == h.esp && Agree(h.mem, d.mem, guard + Span(h.esp, 1) + Span(h.esp + 8, |Frame(c, e)|))
    requires AllAbove(guard, Top(c))
    ensures Agree(c.mem, d.mem, guard)
    ensures Stacked(d.mem, d.esp + 8, Frame(c, e)) && Read(d.mem, d.esp) == e.ret
  {
    var h := AtHandler(c, e);
    var frame := Frame(c, e);
    HandlerFrame(c, e);
    hide *;
    var words := [e.ret, Wrap(h.esp + 8)] + frame;
    assert words[2..] == frame;
    AgreeOn(c.mem, h.mem, d.mem, Top(c), guard, h.esp, Span(h.esp + 8, |frame|));
    StackedDrop(h.mem, h.esp, words, 2);
    StackedAgree(h.mem, d.mem, h.esp + 8, frame);
    FirstWord(h.mem, h.esp, words);
  }

  lemma FirstWord(mem: Mem, at: int, words: seq<Word>)
    requires Stacked(mem, at, words) && words != []
    ensures Read(mem, at) == words[0]
  {
    assert Read(mem, at + 4 * 0) == words[0];
  }

  lemma AgreeOn(m0: Mem, m1: Mem, m2: Mem, top: int, guard: set<int>, a: int, span: set<int>)
    requires SameFrom(m0, m1, top) && Agree(m1, m2, guard + Span(a, 1) + span)
    requires AllAbove(guard, top)
    ensures Agree(m0, m2, guard) && Agree(m1, m2, span) && Read(m1, a) == Read(m2, a)
  {
    hide Read, ByteAt, SameFrom, Span;
    var all := guard + Span(a, 1) + span;
    SameBytesFrom(m0, m1, top);
    WordAgrees(m1, m2, a, all);
    forall g | g in guard
      ensures ByteAt(m0, g) == ByteAt(m2, g)
    {
      assert g in all;
    }
    forall g | g in span
      ensures ByteAt(m1, g) == ByteAt(m2, g)
    {
      assert g in all;
    }
  }

  /** Delivery, and execution of the stub and the wrapper up to the C handler. */
  method EnterHandler(p: Processor, e: Entry)
    modifies p
    ensures p.state == AtHandler(old(p.state), e)
  {
    hide Run, Deliver, Prologue, PushWord;
    p.state := Deliver(p.state, PushedCode(e), true);
    p.Execute(Prologue(e));
    p.state := PushWord(p.state, e.ret);
  }

  /** The C handler's return, and execution of the rest of the wrapper. */
  method ReturnFromHandler(p: Processor)
    modifies p
    ensures p.state == LeaveHandler(old(p.state))
  {
    hide Run, Iret, Epilogue;
    p.state := p.state.(esp := p.state.esp + 4);
    p.Execute(Epilogue());
    p.state := Iret(p.state);
  }

  /** The processor takes an interrupt, executes its stub and the wrapper, with the run of the C handler in between, and
      is back where it was. */
  method TakeInterrupt(p: Processor, e: Entry, body: Trace, ghost guard: set<int>)
    requires Interruptible(p.state) && HandlerBehaves(p.state, e, body, guard) && AllAbove(guard, Top(p.state))
    modifies p
    ensures Restored(old(p.state), p.state) && Agree(old(p.state).mem, p.state.mem, guard)
  {
    ContextPreserved(p.state, e, body, guard);
    HandlerUnfolds(p.state, e, body, guard);
    hide *;
    EnterHandler(p, e);
    p.state := After(body, p.state);
    ReturnFromHandler(p);
  }
}
