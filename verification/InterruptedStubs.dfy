/** The stubs of a system call with interrupts enabled: between any two of their instructions any number of exceptions
    and hardware interrupts may be taken (kernel/syscall/syscall_asm.s, user/syscall_asm.s,
    kernel/interrupt/idt_asm.s). */
module InterruptedStubs {
  import opened CTypes
  import opened EntryStubs
  import opened Interrupts
  import opened Syscalls

  /** An interrupt that is taken, with the run of its handler. */
  datatype Taken = Taken(e: Entry, body: Trace)

  function TakeAll(ints: seq<Taken>, c: Cpu): Cpu {
    if ints == [] then c else TakeAll(ints[1..], Interrupt(c, ints[0].e, ints[0].body))
  }

  /** The interrupts in front of the next instruction, and in front of those behind it. */
  function Now(ints: seq<seq<Taken>>): seq<Taken> {
    if ints == [] then [] else ints[0]
  }

  function Later(ints: seq<seq<Taken>>): seq<seq<Taken>> {
    if ints == [] then [] else ints[1..]
  }

  /** A program with interrupts in front of each instruction and behind the last one. */
  function RunWith(program: seq<Instr>, ints: seq<seq<Taken>>, c: Cpu): Cpu
    decreases |program|
  {
    var ready := TakeAll(Now(ints), c);
    if program == [] then ready else RunWith(program[1..], Later(ints), Step(program[0], ready))
  }

  /** What the handlers must leave alone: the bytes to be kept, from where the processor starts to push on. */
  ghost function Above(c: Cpu, keep: set<int>): set<int> {
    set a | a in keep && Top(c) <= a
  }

  ghost predicate AllBehave(ints: seq<Taken>, c: Cpu, keep: set<int>)
    decreases |ints|
  {
    ints == [] ||
    (&& Interruptible(c)
     && HandlerBehaves(c, ints[0].e, ints[0].body, Above(c, keep))
     && AllBehave(ints[1..], Interrupt(c, ints[0].e, ints[0].body), keep))
  }

  ghost predicate Orderly(program: seq<Instr>, ints: seq<seq<Taken>>, c: Cpu, keep: set<int>)
    decreases |program|
  {
    && AllBehave(Now(ints), c, keep)
    && (program == [] || Orderly(program[1..], Later(ints), Step(program[0], TakeAll(Now(ints), c)), keep))
  }

  // ----- states that agree on all but what handlers may overwrite ---------------------------------------

  ghost predicate SameBytes(m: Mem, m': Mem, low: int, keep: set<int>) {
    forall a | a in keep && low <= a :: ByteAt(m, a) == ByteAt(m', a)
  }

  /** The same registers, flags, segments and stack pointer, and the same bytes to be kept from there on. */
  ghost predicate Alike(c: Cpu, c': Cpu, keep: set<int>) {
    && SameRegs(c.regs, c'.regs)
    && c' == c.(regs := c'.regs, mem := c'.mem)
    && SameBytes(c.mem, c'.mem, Top(c), keep)
  }

  lemma AlikeChain(c: Cpu, c': Cpu, c'': Cpu, keep: set<int>)
    requires Alike(c, c', keep) && Alike(c', c'', keep)
    ensures Alike(c, c'', keep)
  {
    hide Get, ByteAt;
  }

  lemma AlikeSelf(c: Cpu, keep: set<int>)
    ensures Alike(c, c, keep)
  {
    hide Get, ByteAt;
  }

  predicate Covers(keep: set<int>, from: int, to: int) {
    forall a | from <= a < to :: a in keep
  }

  lemma ReadSame(m: Mem, m': Mem, low: int, keep: set<int>, a: int)
    requires SameBytes(m, m', low, keep) && low <= a && Covers(keep, a, a + 4)
    ensures Read(m, a) == Read(m', a)
  {
    hide ByteAt, WordOf;
    assert a in keep && a + 1 in keep && a + 2 in keep && a + 3 in keep;
  }

  lemma WrittenByte(m: Mem, at: int, v: Word, a: int)
    ensures ByteAt(Write(m, at, v), a) == if at <= a < at + 4 then WordBytes(v)[a - at] else ByteAt(m, a)
  {
    hide Read, WordBytes;
  }

  lemma WriteSame(m: Mem, m': Mem, low: int, keep: set<int>, at: int, v: Word)
    requires SameBytes(m, m', low, keep)
    ensures SameBytes(Write(m, at, v), Write(m', at, v), low, keep)
    ensures low == at + 4 ==> SameBytes(Write(m, at, v), Write(m', at, v), at, keep)
  {
    forall a | a in keep && (low <= a || (low == at + 4 && at <= a))
      ensures ByteAt(Write(m, at, v), a) == ByteAt(Write(m', at, v), a)
    {
      WrittenByte(m, at, v, a);
      WrittenByte(m', at, v, a);
    }
  }

  lemma FewerBytes(m: Mem, m': Mem, low: int, keep: set<int>, low': int)
    requires SameBytes(m, m', low, keep) && low <= low'
    ensures SameBytes(m, m', low', keep)
  {
    hide ByteAt;
  }

  lemma PushAlike(c: Cpu, c': Cpu, v: Word, keep: set<int>)
    requires Alike(c, c', keep)
    ensures Alike(PushWord(c, v), PushWord(c', v), keep)
  {
    hide ByteAt, Write, SameRegs;
    WriteSame(c.mem, c'.mem, Top(c), keep, c.esp - 4, v);
  }

  /** The instruction reads inside the memory that agrees, and does not bring back what lies below it. */
  predicate Inside(i: Instr, c: Cpu, keep: set<int>) {
    match i
    case Pop(_) => Top(c) <= c.esp && Covers(keep, c.esp, c.esp + 4)
    case Load(_, offset) =>
      var at := Get(c.regs, EBP) + offset;
      Top(c) <= at && Covers(keep, at, at + 4)
    case AddEsp(n) => FromUser(c) || n >= 0
    case MovToEsp(r) => FromUser(c) || Get(c.regs, r) >= c.esp
    case _ => true
  }

  lemma SetSame(a: Regs, b: Regs, r: Reg, v: Word)
    requires SameRegs(a, b)
    ensures SameRegs(Set(a, r, v), Set(b, r, v))
  {
    forall x: Reg
      ensures Get(Set(a, r, v), x) == Get(Set(b, r, v), x)
    {
      assert Get(a, x) == Get(b, x);
    }
  }

  lemma StepAlike(i: Instr, c: Cpu, c': Cpu, keep: set<int>)
    requires Alike(c, c', keep) && Inside(i, c, keep)
    ensures Alike(Step(i, c), Step(i, c'), keep)
  {
    hide ByteAt, Read, Write, SameBytes;
    match i
    case Push(r) => PushAlike(c, c', Get(c.regs, r), keep);
    case PushImm(v) => PushAlike(c, c', v, keep);
    case Pop(r) =>
      ReadSame(c.mem, c'.mem, Top(c), keep, c.esp);
      FewerBytes(c.mem, c'.mem, Top(c), keep, Top(Step(i, c)));
      SetSame(c.regs, c'.regs, r, Read(c.mem, c.esp));
    case MovAx(v) => SetSame(c.regs, c'.regs, EAX, Get(c.regs, EAX) / 0x1_0000 * 0x1_0000 + v % 0x1_0000);
    case MovSegment(r) => SetSame(c.regs, c'.regs, r, Get(c.regs, EAX) % 0x1_0000);
    case MovFromEsp(r) => SetSame(c.regs, c'.regs, r, Wrap(c.esp));
    case MovToEsp(r) => FewerBytes(c.mem, c'.mem, Top(c), keep, Top(Step(i, c)));
    case Load(r, offset) =>
      ReadSame(c.mem, c'.mem, Top(c), keep, Get(c.regs, EBP) + offset);
      SetSame(c.regs, c'.regs, r, Read(c.mem, Get(c.regs, EBP) + offset));
    case AddEsp(n) => FewerBytes(c.mem, c'.mem, Top(c), keep, Top(Step(i, c)));
    case Cli =>
  }

  ghost predicate AllInside(program: seq<Instr>, c: Cpu, keep: set<int>)
    decreases |program|
  {
    program == [] || (Inside(program[0], c, keep) && AllInside(program[1..], Step(program[0], c), keep))
  }

  /** Interrupts whose handlers behave show in nothing but the memory below the stack. */
  lemma {:induction false} TakeAllAlike(ints: seq<Taken>, c: Cpu, keep: set<int>)
    requires AllBehave(ints, c, keep)
    ensures Alike(c, TakeAll(ints, c), keep)
    decreases |ints|
  {
    if ints == [] {
      AlikeSelf(c, keep);
    } else {
      var next := Interrupt(c, ints[0].e, ints[0].body);
      OneAlike(c, ints[0].e, ints[0].body, keep);
      hide Alike, Interrupt, HandlerBehaves, Interruptible;
      TakeAllAlike(ints[1..], next, keep);
      AlikeChain(c, next, TakeAll(ints, c), keep);
    }
  }

  lemma OneAlike(c: Cpu, e: Entry, body: Trace, keep: set<int>)
    requires Interruptible(c) && HandlerBehaves(c, e, body, Above(c, keep))
    ensures Alike(c, Interrupt(c, e, body), keep)
  {
    hide *;
    GuardFrom(c, keep);
    ContextPreserved(c, e, body, Above(c, keep));
    BytesAgree(c, Interrupt(c, e, body).mem, keep);
    RestoredAlike(c, Interrupt(c, e, body), keep);
  }

  lemma BytesAgree(c: Cpu, m: Mem, keep: set<int>)
    requires Agree(c.mem, m, Above(c, keep))
    ensures SameBytes(c.mem, m, Top(c), keep)
  {
    hide ByteAt, Top;
    forall a | a in keep && Top(c) <= a
      ensures ByteAt(c.mem, a) == ByteAt(m, a)
    {
      assert a in Above(c, keep);
    }
  }

  lemma RestoredAlike(c: Cpu, c': Cpu, keep: set<int>)
    requires Restored(c, c') && SameBytes(c.mem, c'.mem, Top(c), keep)
    ensures Alike(c, c', keep)
  {
    hide SameBytes, SameRegs, Top;
  }

  lemma GuardFrom(c: Cpu, keep: set<int>)
    ensures AllAbove(Above(c, keep), Top(c))
  {
  }

  /** A program interrupted between any of its instructions ends with the registers, flags and stack pointer of the
      uninterrupted one, and from there on with the same bytes of those that the handlers keep. */
  lemma {:induction false} RunAlike(program: seq<Instr>, ints: seq<seq<Taken>>, c: Cpu, c': Cpu, keep: set<int>)
    requires Alike(c, c', keep) && Orderly(program, ints, c', keep) && AllInside(program, c, keep)
    ensures Alike(Run(program, c), RunWith(program, ints, c'), keep)
    decreases |program|
  {
    hide Alike, AllBehave, TakeAll, Step, Inside, Now, Later;
    var ready := TakeAll(Now(ints), c');
    TakeAllAlike(Now(ints), c', keep);
    AlikeChain(c, c', ready, keep);
    if program != [] {
      StepAlike(program[0], c, ready, keep);
      RunAlike(program[1..], Later(ints), Step(program[0], c), Step(program[0], ready), keep);
    }
  }

  // ----- the four parts of a call ------------------------------------------------------------------------

  lemma {:induction false} InsideAppend(p: seq<Instr>, q: seq<Instr>, c: Cpu, keep: set<int>)
    requires AllInside(p, c, keep) && AllInside(q, Run(p, c), keep)
    ensures AllInside(p + q, c, keep)
    decreases |p|
  {
    hide Inside, Step;
    if p == [] {
      assert p + q == q;
    } else {
      assert (p + q)[1..] == p[1..] + q;
      InsideAppend(p[1..], q, Step(p[0], c), keep);
    }
  }

  lemma {:induction false} PushesInside(rs: seq<Reg>, c: Cpu, keep: set<int>)
    ensures AllInside(Pushes(rs), c, keep)
    decreases |rs|
  {
    if rs != [] {
      assert Pushes(rs)[1..] == Pushes(rs[1..]);
      PushesInside(rs[1..], Step(Push(rs[0]), c), keep);
    }
  }

  lemma {:induction false} PopsInside(rs: seq<Reg>, c: Cpu, keep: set<int>)
    requires Top(c) <= c.esp && Covers(keep, c.esp, c.esp + 4 * |rs|)
    ensures AllInside(Pops(rs), c, keep)
    decreases |rs|
  {
    hide Read, Set;
    if rs != [] {
      assert Pops(rs)[1..] == Pops(rs[1..]);
      PopsInside(rs[1..], Step(Pop(rs[0]), c), keep);
    }
  }

  lemma {:induction false} LoadsInside(rs: seq<Reg>, offset: int, c: Cpu, keep: set<int>)
    requires EBP !in rs && forall r | r in rs :: !IsSegment(r)
    requires var at := Get(c.regs, EBP) + offset; Top(c) <= at && Covers(keep, at, at + 4 * |rs|)
    ensures AllInside(Loads(rs, offset), c, keep)
    decreases |rs|
  {
    hide Read;
    if rs != [] {
      assert Loads(rs, offset)[1..] == Loads(rs[1..], offset + 4);
      LoadsInside(rs[1..], offset + 4, Step(Load(rs[0], offset), c), keep);
    }
  }

  lemma {:induction false} MovSegmentsInside(rs: seq<Reg>, c: Cpu, keep: set<int>)
    ensures AllInside(MovSegments(rs), c, keep)
    decreases |rs|
  {
    hide Set;
    if rs != [] {
      assert MovSegments(rs)[1..] == MovSegments(rs[1..]);
      MovSegmentsInside(rs[1..], Step(MovSegment(rs[0]), c), keep);
    }
  }

  lemma OneInside(i: Instr, c: Cpu, keep: set<int>)
    requires Inside(i, c, keep)
    ensures AllInside([i], c, keep)
  {
    hide Inside, Step;
    assert [i][1..] == [];
  }

  lemma ConsInside(i: Instr, p: seq<Instr>, c: Cpu, keep: set<int>)
    requires Inside(i, c, keep) && AllInside(p, Step(i, c), keep)
    ensures AllInside([i] + p, c, keep)
  {
    hide Inside, Step;
    assert ([i] + p)[1..] == p;
  }

  lemma PopsEffect(rs: seq<Reg>, c: Cpu)
    ensures var d := Run(Pops(rs), c);
            && d == c.(regs := d.regs, esp := c.esp + 4 * |rs|)
            && forall r: Reg :: r !in rs ==> Get(d.regs, r) == Get(c.regs, r)
  {
    var words := seq(|rs|, i requires 0 <= i < |rs| => Read(c.mem, c.esp + 4 * i));
    hide Read, Set, Get;
    PopList(rs, c, words);
    forall r: Reg | r !in rs
      ensures Get(SetAll(c.regs, rs, words), r) == Get(c.regs, r)
    {
      SetAllKeeps(c.regs, rs, words, r);
    }
  }

  lemma PushesEffect(rs: seq<Reg>, c: Cpu)
    ensures var d := Run(Pushes(rs), c); d == c.(esp := c.esp - 4 * |rs|, mem := d.mem)
  {
    hide Read, Write;
    PushList(rs, c, []);
  }

  lemma UserEntryInside(c: Cpu, ret: Word, args: seq<Word>, keep: set<int>)
    requires Calling(c, ret, args) && CallCovered(c, keep)
    ensures AllInside(UserEntryCode(), c, keep)
  {
    hide Run, Read, Write, Stacked, Pushes, Loads, Get, AllInside, Step;
    UserPushed(c, ret, args);
    LoadedRegisters();
    var c1 := Step(Push(EBP), c);
    var c2 := Step(MovFromEsp(EBP), c1);
    var rest := Pushes(USER_SAVED) + Loads(LOADED, 8);
    assert Top(UserStack(c)) == c.esp0 && UserStack(c) == Run(Pushes(USER_SAVED), c2);
    hide UserStack;
    PushesInside(USER_SAVED, c2, keep);
    LoadsInside(LOADED, 8, UserStack(c), keep);
    InsideAppend(Pushes(USER_SAVED), Loads(LOADED, 8), c2, keep);
    ConsInside(MovFromEsp(EBP), rest, c1, keep);
    ConsInside(Push(EBP), [MovFromEsp(EBP)] + rest, c, keep);
  }

  lemma KernelEntryInside(d: Cpu, keep: set<int>)
    requires d.cs == KERNEL_CODE && Covers(keep, d.esp - 20, d.esp)
    ensures AllInside(KernelEntryCode(), d, keep)
  {
    var d1 := Run(Pushes(SEGMENTS), d);
    var d2 := Step(Push(EAX), d1);
    var d3 := Run(KernelSegments(), d2);
    PushesEffect(SEGMENTS, d);
    SegmentsLoaded(d2);
    assert d2.esp == d1.esp - 4 && d2.cs == KERNEL_CODE;
    assert Inside(Pop(EAX), d3, keep);
    hide Run, Read, Write, Pushes, Get, AllInside, Step, KernelSegments;
    PushesInside(SEGMENTS, d, keep);
    KernelSegmentsInside(d2, keep);
    PushesInside(ARGUMENTS, Step(Pop(EAX), d3), keep);
    var last := [Pop(EAX)] + Pushes(ARGUMENTS);
    ConsInside(Pop(EAX), Pushes(ARGUMENTS), d3, keep);
    InsideAppend(KernelSegments(), last, d2, keep);
    ConsInside(Push(EAX), KernelSegments() + last, d1, keep);
    InsideAppend(Pushes(SEGMENTS), [Push(EAX)] + (KernelSegments() + last), d, keep);
  }

  lemma KernelSegmentsInside(c: Cpu, keep: set<int>)
    ensures AllInside(KernelSegments(), c, keep)
  {
    MovSegmentsInside([DS, ES, FS, GS], Step(MovAx(KERNEL_DATA), c), keep);
    hide Step, MovSegments, AllInside;
    ConsInside(MovAx(KERNEL_DATA), MovSegments([DS, ES, FS, GS]), c, keep);
  }

  lemma KernelExitInside(x: Cpu, keep: set<int>)
    requires x.cs == KERNEL_CODE && Covers(keep, x.esp, x.esp + 36)
    ensures AllInside(KernelExitCode(), x, keep)
    ensures var d := Run(KernelExitCode(), x); d == x.(regs := d.regs, esp := x.esp + 36)
  {
    var five, four := [EBX, EBX, EBX, EBX, EBX], Reversed(SEGMENTS);
    assert |four| == 4;
    var x1 := Run(Pops(five), x);
    PopsEffect(five, x);
    PopsEffect(four, x1);
    RunAppend(Pops(five), Pops(four), x);
    hide Run, Read, Pops, Get, AllInside, Reversed;
    PopsInside(five, x, keep);
    PopsInside(four, x1, keep);
    InsideAppend(Pops(five), Pops(four), x, keep);
  }

  lemma UserExitInside(v: Cpu, keep: set<int>)
    requires FromUser(v) && v.esp0 <= v.esp && Covers(keep, v.esp, v.esp + 20)
    requires v.esp0 <= Get(v.regs, EBP) && Covers(keep, Get(v.regs, EBP), Get(v.regs, EBP) + 8)
    ensures AllInside(UserExitCode(), v, keep)
    ensures var d := Run(UserExitCode(), v); FromUser(d) && d.esp0 == v.esp0 && d.esp == Get(v.regs, EBP) + 4
  {
    var five := Reversed(USER_SAVED);
    RegisterLists();
    var v1 := Run(Pops(five), v);
    var v2 := Step(MovToEsp(EBP), v1);
    PopsEffect(five, v);
    UserExitLast(v1);
    RunAppend(Pops(five), [MovToEsp(EBP)] + [Pop(EBP)], v);
    hide Run, Read, Pops, Get, AllInside, Reversed, Set;
    PopsInside(five, v, keep);
    OneInside(Pop(EBP), v2, keep);
    ConsInside(MovToEsp(EBP), [Pop(EBP)], v1, keep);
    InsideAppend(Pops(five), [MovToEsp(EBP)] + [Pop(EBP)], v, keep);
  }

  lemma UserExitLast(v1: Cpu)
    ensures var d := Run([MovToEsp(EBP)] + [Pop(EBP)], v1);
            d == v1.(regs := d.regs, esp := Get(v1.regs, EBP) + 4)
  {
    RunCons(MovToEsp(EBP), [Pop(EBP)], v1);
    RunOne(Pop(EBP), Step(MovToEsp(EBP), v1));
    hide Run, Read, Get, Set;
  }

  // ----- the whole call ----------------------------------------------------------------------------------

  lemma DeliverAlike(u: Cpu, u': Cpu, keep: set<int>)
    requires Alike(u, u', keep) && FromUser(u)
    ensures Alike(Deliver(u, None, false), Deliver(u', None, false), keep)
  {
    hide ByteAt, Write, Read, SameRegs, SameBytes;
    var s, s' := u.(esp := u.esp0, ss := u.ss0, cs := KERNEL_CODE), u'.(esp := u.esp0, ss := u.ss0, cs := KERNEL_CODE);
    assert Alike(s, s', keep);
    PushAlike(s, s', u.ss, keep);
    var s1, s1' := PushWord(s, u.ss), PushWord(s', u.ss);
    PushAlike(s1, s1', Wrap(u.esp), keep);
    var s2, s2' := PushWord(s1, Wrap(u.esp)), PushWord(s1', Wrap(u.esp));
    PushAlike(s2, s2', u.eflags, keep);
    var s3, s3' := PushWord(s2, u.eflags), PushWord(s2', u.eflags);
    PushAlike(s3, s3', u.cs, keep);
    var s4, s4' := PushWord(s3, u.cs), PushWord(s3', u.cs);
    PushAlike(s4, s4', u.eip, keep);
    assert Deliver(u, None, false) == PushWord(s4, u.eip);
    assert Deliver(u', None, false) == PushWord(s4', u.eip);
  }

  lemma IretAlike(x: Cpu, x': Cpu, keep: set<int>)
    requires Alike(x, x', keep) && x.cs == KERNEL_CODE && Covers(keep, x.esp, x.esp + 20)
    requires FromUser(Iret(x)) && x.esp <= x.esp0
    ensures Alike(Iret(x), Iret(x'), keep)
  {
    hide ByteAt, Read, SameRegs, SameBytes;
    ReadSame(x.mem, x'.mem, x.esp, keep, x.esp);
    ReadSame(x.mem, x'.mem, x.esp, keep, x.esp + 4);
    ReadSame(x.mem, x'.mem, x.esp, keep, x.esp + 8);
    ReadSame(x.mem, x'.mem, x.esp, keep, x.esp + 12);
    ReadSame(x.mem, x'.mem, x.esp, keep, x.esp + 16);
    FewerBytes(x.mem, x'.mem, x.esp, keep, x.esp0);
  }

  lemma RetAlike(x: Cpu, x': Cpu, keep: set<int>)
    requires Alike(x, x', keep) && FromUser(x) && x.esp0 <= x.esp && Covers(keep, x.esp, x.esp + 4)
    ensures Alike(Ret(x), Ret(x'), keep)
  {
    ReadSame(x.mem, x'.mem, x.esp0, keep, x.esp);
    hide ByteAt, Read, SameRegs, SameBytes;
  }

  /** The interrupts taken during the four parts of a call, apart from those of the C handler. */
  datatype CallInterrupts = CallInterrupts(
    userIn: seq<seq<Taken>>, kernelIn: seq<seq<Taken>>, kernelOut: seq<seq<Taken>>, userOut: seq<seq<Taken>>)

  /** At int 48, at the first instruction of the C handler, behind iret and behind the call. */
  function AtInt(c: Cpu, x: CallInterrupts): Cpu {
    RunWith(UserEntryCode(), x.userIn, c)
  }

  function AtCHandler(c: Cpu, x: CallInterrupts, kernelRet: Word): Cpu {
    PushWord(RunWith(KernelEntryCode(), x.kernelIn, Deliver(AtInt(c, x), None, false)), kernelRet)
  }

  function BehindIret(d: Cpu, x: CallInterrupts): Cpu {
    Iret(RunWith(KernelExitCode(), x.kernelOut, d.(esp := d.esp + 4)))
  }

  function BehindCall(d: Cpu, x: CallInterrupts): Cpu {
    Ret(RunWith(UserExitCode(), x.userOut, BehindIret(d, x)))
  }

  /** What the handlers of a call must leave alone: what the stubs have on the kernel stack, and what they have on the
      user's stack, with the arguments. */
  ghost function CallArea(c: Cpu): set<int> {
    Span(c.esp0 - 60, 15) + Span(c.esp - 24, 12)
  }

  /** Byte by byte. */
  lemma CallAreaBytes(c: Cpu)
    ensures forall a :: a in CallArea(c) <==> c.esp0 - 60 <= a < c.esp0 || c.esp - 24 <= a < c.esp + 24
  {
    forall a
      ensures a in CallArea(c) <==> c.esp0 - 60 <= a < c.esp0 || c.esp - 24 <= a < c.esp + 24
    {
      assert InWords(a, c.esp0 - 60, 15) <==> c.esp0 - 60 <= a < c.esp0;
      assert InWords(a, c.esp - 24, 12) <==> c.esp - 24 <= a < c.esp + 24;
    }
  }

  predicate CallCovered(c: Cpu, keep: set<int>) {
    Covers(keep, c.esp0 - 60, c.esp0) && Covers(keep, c.esp - 24, c.esp + 24)
  }

  lemma AreaCovered(c: Cpu, keep: set<int>)
    requires CallArea(c) <= keep
    ensures CallCovered(c, keep)
  {
    forall a | c.esp0 - 60 <= a < c.esp0
      ensures a in keep
    {
      assert InWords(a, c.esp0 - 60, 15) && a in Span(c.esp0 - 60, 15);
    }
    forall a | c.esp - 24 <= a < c.esp + 24
      ensures a in keep
    {
      assert InWords(a, c.esp - 24, 12) && a in Span(c.esp - 24, 12);
    }
  }

  /** All handlers leave the bytes to be kept alone, and no others have to stay; the C handler of the call follows cdecl
      as well. */
  ghost predicate CallOrderly(c: Cpu, x: CallInterrupts, kernelRet: Word, handler: Trace, keep: set<int>) {
    var u := AtInt(c, x);
    var k := AtCHandler(c, x, kernelRet);
    var d := After(handler, k);
    && Orderly(UserEntryCode(), x.userIn, c, keep)
    && Orderly(KernelEntryCode(), x.kernelIn, Deliver(u, None, false), keep)
    && Behaves(handler, k, CallGuard(u, k), k.esp) && CalleeSaved(k, d)
    && Orderly(KernelExitCode(), x.kernelOut, d.(esp := d.esp + 4), keep)
    && Orderly(UserExitCode(), x.userOut, BehindIret(d, x), keep)
  }

  /** On the way in. */
  lemma InterruptedIn(c: Cpu, ret: Word, args: seq<Word>, x: CallInterrupts, kernelRet: Word, keep: set<int>)
    requires Calling(c, ret, args) && CallCovered(c, keep)
    requires Orderly(UserEntryCode(), x.userIn, c, keep)
    requires Orderly(KernelEntryCode(), x.kernelIn, Deliver(AtInt(c, x), None, false), keep)
    ensures Alike(UserEntry(c), AtInt(c, x), keep)
    ensures Alike(KernelEntry(UserEntry(c), kernelRet), AtCHandler(c, x, kernelRet), keep)
  {
    var u, u' := UserEntry(c), AtInt(c, x);
    var d, d' := Deliver(u, None, false), Deliver(u', None, false);
    CallArrives(c, ret, args, kernelRet);
    DeliverStacked(u, None, false);
    assert d.cs == KERNEL_CODE && d.esp == c.esp0 - 20 && FromUser(u);
    UserEntryInside(c, ret, args, keep);
    UserEntryRuns(c);
    KernelEntryRuns(d);
    assert PushWord(Run(KernelEntryCode(), d), kernelRet) == KernelEntry(u, kernelRet);
    hide *;
    AlikeSelf(c, keep);
    RunAlike(UserEntryCode(), x.userIn, c, c, keep);
    IsAtInt(c, x);
    DeliverAlike(u, u', keep);
    KernelEntryInside(d, keep);
    RunAlike(KernelEntryCode(), x.kernelIn, d, d', keep);
    PushAlike(Run(KernelEntryCode(), d), RunWith(KernelEntryCode(), x.kernelIn, d'), kernelRet, keep);
    IsAtCHandler(c, x, kernelRet);
  }

  lemma IsAtInt(c: Cpu, x: CallInterrupts)
    ensures AtInt(c, x) == RunWith(UserEntryCode(), x.userIn, c)
  {
    hide RunWith;
  }

  lemma IsAtCHandler(c: Cpu, x: CallInterrupts, kernelRet: Word)
    ensures AtCHandler(c, x, kernelRet)
            == PushWord(RunWith(KernelEntryCode(), x.kernelIn, Deliver(AtInt(c, x), None, false)), kernelRet)
  {
    hide RunWith, Deliver, PushWord, AtInt;
  }

  /** On the way out of the kernel. */
  lemma InterruptedIret(d: Cpu, x: CallInterrupts, keep: set<int>)
    requires d.cs == KERNEL_CODE && Covers(keep, d.esp, d.esp + 60) && d.esp + 40 <= d.esp0
    requires FromUser(KernelExit(d)) && Orderly(KernelExitCode(), x.kernelOut, d.(esp := d.esp + 4), keep)
    ensures Alike(KernelExit(d), BehindIret(d, x), keep)
  {
    hide Read, Run, Pops, Iret, Reversed, KernelExitCode, Orderly, FromUser, Alike, BehindIret;
    var d0 := d.(esp := d.esp + 4);
    var e := Run(KernelExitCode(), d0);
    KernelExitInside(d0, keep);
    KernelExitRuns(d0);
    assert Iret(e) == KernelExit(d);
    AlikeSelf(d0, keep);
    RunAlike(KernelExitCode(), x.kernelOut, d0, d0, keep);
    IsBehind(d, x);
    hide KernelExit;
    IretAlike(e, RunWith(KernelExitCode(), x.kernelOut, d0), keep);
  }

  /** On the way out of the user's stub. */
  lemma InterruptedRet(d: Cpu, x: CallInterrupts, v: Cpu, keep: set<int>)
    requires FromUser(v) && v.esp0 <= v.esp && Covers(keep, v.esp, v.esp + 20)
    requires v.esp0 <= Get(v.regs, EBP) && Covers(keep, Get(v.regs, EBP), Get(v.regs, EBP) + 8)
    requires Alike(v, BehindIret(d, x), keep) && Orderly(UserExitCode(), x.userOut, BehindIret(d, x), keep)
    ensures Alike(UserExit(v), BehindCall(d, x), keep)
  {
    UserExitRuns(v);
    UserExitInside(v, keep);
    hide *;
    RunAlike(UserExitCode(), x.userOut, v, BehindIret(d, x), keep);
    IsBehind(d, x);
    RetAlike(Run(UserExitCode(), v), RunWith(UserExitCode(), x.userOut, BehindIret(d, x)), keep);
  }

  lemma IsBehind(d: Cpu, x: CallInterrupts)
    ensures BehindIret(d, x) == Iret(RunWith(KernelExitCode(), x.kernelOut, d.(esp := d.esp + 4)))
    ensures BehindCall(d, x) == Ret(RunWith(UserExitCode(), x.userOut, BehindIret(d, x)))
  {
    hide RunWith, Iret, Ret;
  }

  /** The same obligations, kept by a handler that started from a state like the one without interrupts. */
  lemma ObeysAlike(u: Cpu, u': Cpu, k: Cpu, k': Cpu, d: Cpu, keep: set<int>)
    requires Obeys(u', k', d) && Alike(u, u', keep) && Alike(k, k', keep) && FromUser(u)
    requires k.cs == KERNEL_CODE && k.esp <= u.esp && Covers(keep, k.esp, k.esp + 60) && Covers(keep, u.esp, u.esp + 28)
    ensures Obeys(u, k, d)
  {
    hide Read, ByteAt, SameBytes, SameRegs, CallGuard, Get, Agree;
    SameWords(u, u');
    SameGuard(u, u', k, k');
    GuardReads(u, k, k'.mem, d.mem, keep);
    SavedAlike(k, k', d);
  }

  lemma SameGuard(u: Cpu, u': Cpu, k: Cpu, k': Cpu)
    requires u'.esp == u.esp && k'.esp == k.esp && |KernelWords(u)| == |KernelWords(u')|
    ensures CallGuard(u, k) == CallGuard(u', k')
  {
    hide Span, KernelWords;
  }

  lemma SavedAlike(k: Cpu, k': Cpu, d: Cpu)
    requires SameRegs(k.regs, k'.regs) && CalleeSaved(k', d)
    ensures CalleeSaved(k, d)
  {
    hide Get;
  }

  lemma GuardReads(u: Cpu, k: Cpu, m: Mem, m': Mem, keep: set<int>)
    requires SameBytes(k.mem, m, k.esp, keep) && Agree(m, m', CallGuard(u, k)) && |KernelWords(u)| == 9
    requires k.esp <= u.esp && Covers(keep, k.esp, k.esp + 60) && Covers(keep, u.esp, u.esp + 28)
    ensures Agree(k.mem, m', CallGuard(u, k))
  {
    hide ByteAt, KernelWords;
    forall a | a in CallGuard(u, k)
      ensures ByteAt(k.mem, a) == ByteAt(m', a)
    {
      GuardInside(k.esp, u.esp, 9, a);
    }
  }

  lemma SameWords(u: Cpu, u': Cpu)
    requires FromUser(u) && u'.cs == u.cs
    ensures |KernelWords(u)| == |KernelWords(u')| == 9
  {
    assert |Reversed(SEGMENTS)| == 4;
  }

  lemma GuardInside(kernel: int, user: int, size: nat, a: int)
    requires a in Span(kernel, 1) + Span(kernel + 24, size) + Span(user, 7) && kernel <= user
    ensures kernel <= a && (a < kernel + 24 + 4 * size || user <= a < user + 28)
  {
  }

  /** The handler, started after an interrupted way in, does what one started without interrupts has to do. */
  lemma HandlerReturns(c: Cpu, ret: Word, args: seq<Word>, x: CallInterrupts, kernelRet: Word, handler: Trace,
                       keep: set<int>)
    requires Calling(c, ret, args) && CallCovered(c, keep)
    requires Alike(UserEntry(c), AtInt(c, x), keep)
    requires Alike(KernelEntry(UserEntry(c), kernelRet), AtCHandler(c, x, kernelRet), keep)
    requires var u, k := AtInt(c, x), AtCHandler(c, x, kernelRet);
             Behaves(handler, k, CallGuard(u, k), k.esp) && CalleeSaved(k, After(handler, k))
    ensures Obeys(UserEntry(c), KernelEntry(UserEntry(c), kernelRet), After(handler, AtCHandler(c, x, kernelRet)))
  {
    var u, u' := UserEntry(c), AtInt(c, x);
    var k, k' := KernelEntry(u, kernelRet), AtCHandler(c, x, kernelRet);
    CallArrives(c, ret, args, kernelRet);
    SameWords(u, u);
    Positions(c, u, u', k, k', keep);
    hide *;
    HandlerObeys(u', k', handler);
    ObeysAlike(u, u', k, k', After(handler, k'), keep);
  }

  lemma Positions(c: Cpu, u: Cpu, u': Cpu, k: Cpu, k': Cpu, keep: set<int>)
    requires Alike(u, u', keep) && Alike(k, k', keep)
    requires u == c.(regs := u.regs, esp := c.esp - 24, mem := u.mem) && c.esp0 <= c.esp - 24 && CallCovered(c, keep)
    requires k.esp == u.esp0 - 60 && k.cs == KERNEL_CODE
    requires Get(k.regs, DS) == Get(k.regs, ES) == Get(k.regs, FS) == Get(k.regs, GS) == KERNEL_DATA
    ensures WellFormed(k') && k'.cs == KERNEL_CODE && k'.esp <= u'.esp
    ensures k.esp <= u.esp && Covers(keep, k.esp, k.esp + 60) && Covers(keep, u.esp, u.esp + 28)
  {
    KernelWellFormed(k);
    hide Get, ByteAt;
    forall r: Reg | IsSegment(r)
      ensures Get(k'.regs, r) < 0x1_0000
    {
      assert Get(k.regs, r) == Get(k'.regs, r);
    }
  }

  /** Where the kernel hands back to: the user's stub, with its frame pointer. */
  lemma ReturnsToStub(c: Cpu, ret: Word, args: seq<Word>, kernelRet: Word, d: Cpu)
    requires Calling(c, ret, args) && Obeys(UserEntry(c), KernelEntry(UserEntry(c), kernelRet), d)
    ensures d.cs == KERNEL_CODE && d.esp0 == c.esp0 && d.esp == c.esp0 - 60
    ensures var v := KernelExit(d);
            FromUser(v) && v.esp0 == c.esp0 <= v.esp == c.esp - 24 && Get(v.regs, EBP) == c.esp - 4
  {
    var u := UserEntry(c);
    var k := KernelEntry(u, kernelRet);
    CallArrives(c, ret, args, kernelRet);
    SameWords(u, u);
    FramePassed(c, u, k, d, args);
    hide Stacked, SameFrom, Read, Write, KernelEntry, UserEntry, KernelExit, KernelWords, UserWordsOf, Interruptible;
    hide Get, FromUser, SavedByUser, IsSegment, Loaded, Obeys, PushWord;
    var user := UserWordsOf(c) + [ret];
    HandlerKept(u, k, d, kernelRet, args, user, args);
    StubLeft(c, u, d);
  }

  lemma FramePassed(c: Cpu, u: Cpu, k: Cpu, d: Cpu, args: seq<Word>)
    requires |args| == 5 && Loaded(c, u, args) && Obeys(u, k, d)
    requires forall r: Reg :: !IsSegment(r) ==> Get(k.regs, r) == Get(u.regs, r)
    ensures Get(d.regs, EBP) == c.esp - 4
    ensures d.esp == k.esp && d.cs == k.cs && d.ss0 == k.ss0 && d.esp0 == k.esp0
  {
    hide Get, Agree;
  }

  lemma StubLeft(c: Cpu, u: Cpu, d: Cpu)
    requires Interruptible(u) && FromUser(u) && d.cs == KERNEL_CODE && d.ss0 == u.ss0 && d.esp0 == u.esp0
    requires Stacked(d.mem, d.esp + 24, KernelWords(u)) && d.esp == u.esp0 - 4 * (6 + |KernelWords(u)|)
    requires u == c.(regs := u.regs, esp := c.esp - 24, mem := u.mem) && c.esp0 <= u.esp
    requires Get(d.regs, EBP) == c.esp - 4
    ensures var v := KernelExit(d);
            FromUser(v) && v.esp0 == c.esp0 <= v.esp == c.esp - 24 && Get(v.regs, EBP) == c.esp - 4
  {
    hide Stacked, KernelExit, KernelWords, Interruptible, Get;
    LeavesKernel(u, d);
  }

  /** A system call with interrupts at every point: in both stubs on the way in and out, between any two instructions,
      and in the C handler, to any depth. The C handler starts as without any, and the caller goes on as after a call
      without any, with the handler's result and its memory. All that handlers of interrupts have to leave alone is
      CallArea; whatever else they keep is kept as well. */
  lemma InterruptedCall(c: Cpu, ret: Word, args: seq<Word>, x: CallInterrupts, kernelRet: Word, handler: Trace,
                        keep: set<int>)
    requires Calling(c, ret, args) && CallArea(c) <= keep
    requires CallOrderly(c, x, kernelRet, handler, keep)
    ensures Alike(KernelEntry(UserEntry(c), kernelRet), AtCHandler(c, x, kernelRet), keep)
    ensures var d := After(handler, AtCHandler(c, x, kernelRet));
            && CallCompleted(c, ret, BehindCall(d, x)) && Get(BehindCall(d, x).regs, EAX) == Get(d.regs, EAX)
            && SameBytes(d.mem, BehindCall(d, x).mem, c.esp0, keep)
  {
    hide *;
    AreaCovered(c, keep);
    var d := After(handler, AtCHandler(c, x, kernelRet));
    OrderlyParts(c, x, kernelRet, handler, keep);
    InterruptedIn(c, ret, args, x, kernelRet, keep);
    HandlerReturns(c, ret, args, x, kernelRet, handler, keep);
    CallEnds(c, ret, args, kernelRet, d, x, keep);
  }

  lemma CallEnds(c: Cpu, ret: Word, args: seq<Word>, kernelRet: Word, d: Cpu, x: CallInterrupts, keep: set<int>)
    requires Calling(c, ret, args) && CallCovered(c, keep)
    requires Obeys(UserEntry(c), KernelEntry(UserEntry(c), kernelRet), d)
    requires Orderly(KernelExitCode(), x.kernelOut, d.(esp := d.esp + 4), keep)
    requires Orderly(UserExitCode(), x.userOut, BehindIret(d, x), keep)
    ensures CallCompleted(c, ret, BehindCall(d, x)) && Get(BehindCall(d, x).regs, EAX) == Get(d.regs, EAX)
    ensures SameBytes(d.mem, BehindCall(d, x).mem, c.esp0, keep)
  {
    hide *;
    SystemCall(c, ret, args, kernelRet, d);
    ReturnsToStub(c, ret, args, kernelRet, d);
    WayOutCovered(c, ret, args, keep);
    InterruptedIret(d, x, keep);
    InterruptedRet(d, x, KernelExit(d), keep);
    CompletedAlike(c, ret, UserExit(KernelExit(d)), BehindCall(d, x), keep);
  }

  lemma WayOutCovered(c: Cpu, ret: Word, args: seq<Word>, keep: set<int>)
    requires Calling(c, ret, args) && CallCovered(c, keep)
    ensures FromUser(c) && c.esp0 <= c.esp - 24 && Covers(keep, c.esp0 - 60, c.esp0)
    ensures Covers(keep, c.esp - 24, c.esp - 4) && Covers(keep, c.esp - 4, c.esp + 4)
  {
  }

  lemma OrderlyParts(c: Cpu, x: CallInterrupts, kernelRet: Word, handler: Trace, keep: set<int>)
    requires CallOrderly(c, x, kernelRet, handler, keep)
    ensures var u := AtInt(c, x);
            var k := AtCHandler(c, x, kernelRet);
            var d := After(handler, k);
            && Orderly(UserEntryCode(), x.userIn, c, keep)
            && Orderly(KernelEntryCode(), x.kernelIn, Deliver(u, None, false), keep)
            && Behaves(handler, k, CallGuard(u, k), k.esp) && CalleeSaved(k, d)
            && Orderly(KernelExitCode(), x.kernelOut, d.(esp := d.esp + 4), keep)
            && Orderly(UserExitCode(), x.userOut, BehindIret(d, x), keep)
  {
    hide Orderly, Behaves, CalleeSaved, After, AtInt, AtCHandler, BehindIret, CallGuard, Deliver;
  }

  /** No interrupts. */
  const QUIET := CallInterrupts([], [], [], [])

  lemma {:induction false} QuietProgram(program: seq<Instr>, c: Cpu, keep: set<int>)
    ensures Orderly(program, [], c, keep) && RunWith(program, [], c) == Run(program, c)
    decreases |program|
  {
    hide Step;
    if program != [] {
      QuietProgram(program[1..], Step(program[0], c), keep);
    }
  }

  /** The obligations can be met: a call without interrupts whose handler returns at once meets them anywhere. */
  lemma QuietCall(c: Cpu, kernelRet: Word, keep: set<int>)
    ensures CallOrderly(c, QUIET, kernelRet, Done, keep)
    ensures After(Done, AtCHandler(c, QUIET, kernelRet)) == AtCHandler(c, QUIET, kernelRet)
  {
    hide Orderly, UserEntryCode, UserExitCode, KernelEntryCode, KernelExitCode, AtInt, AtCHandler, BehindIret;
    hide CallGuard, Get, Deliver, ByteAt, Read;
    var u, k := AtInt(c, QUIET), AtCHandler(c, QUIET, kernelRet);
    QuietProgram(UserEntryCode(), c, keep);
    QuietProgram(KernelEntryCode(), Deliver(u, None, false), keep);
    QuietProgram(KernelExitCode(), k.(esp := k.esp + 4), keep);
    QuietProgram(UserExitCode(), BehindIret(k, QUIET), keep);
  }

  /** A handler that pushes a word, as the timer's may, and then stores one, as it does into its tick counter. */
  function Tick(c: Cpu, e: Entry, at: int, v: Word): Trace {
    var h := AtHandler(c, e);
    var pushed := PushWord(h, v);
    Own(pushed, Own(h.(mem := Write(pushed.mem, at, v)), Done))
  }

  /** It behaves wherever that word is, as long as it is no byte to be kept and not in its own frame. */
  lemma TickBehaves(c: Cpu, e: Entry, at: int, v: Word, keep: set<int>)
    requires Interruptible(c) && (at + 4 <= Top(c) - 84 || Top(c) <= at) && Span(at, 1) !! keep
    ensures HandlerBehaves(c, e, Tick(c, e, at, v), Above(c, keep))
  {
    hide AtHandler, Frame, Write, Get, Span, Above, Agree, Interruptible;
    var h := AtHandler(c, e);
    var guard := Above(c, keep) + Span(h.esp, 1) + Span(h.esp + 8, |Frame(c, e)|);
    HandlerStart(c, e);
    FrameSize(c, e);
    TickMisses(c, h.esp, |Frame(c, e)|, at, keep);
    Untouched(h.mem, h.esp - 4, v, guard);
    Untouched(PushWord(h, v).mem, at, v, guard);
    KernelWellFormed(h) by {
      HandlerFrame(c, e);
    }
    SameWellFormed(h, PushWord(h, v));
    SameWellFormed(h, h.(mem := Write(PushWord(h, v).mem, at, v)));
    TwoStepsBehave(h, PushWord(h, v), h.(mem := Write(PushWord(h, v).mem, at, v)), guard);
  }

  lemma TwoStepsBehave(h: Cpu, next: Cpu, last: Cpu, guard: set<int>)
    requires WellFormed(next) && next == h.(esp := next.esp, mem := next.mem) && next.esp <= h.esp
    requires WellFormed(last) && last == h.(mem := last.mem)
    requires Agree(h.mem, next.mem, guard) && Agree(next.mem, last.mem, guard)
    ensures Behaves(Own(next, Own(last, Done)), h, guard, h.esp)
  {
    hide WellFormed, Agree;
    assert Behaves(Done, last, guard, h.esp);
    assert Behaves(Own(last, Done), next, guard, h.esp);
  }

  lemma SameWellFormed(c: Cpu, d: Cpu)
    requires WellFormed(c) && d.regs == c.regs
    ensures WellFormed(d)
  {
    hide Get;
  }

  lemma TickMisses(c: Cpu, esp: int, size: nat, at: int, keep: set<int>)
    requires esp == Top(c) - 4 * (2 + size) && size <= 19
    requires (at + 4 <= Top(c) - 84 || Top(c) <= at) && Span(at, 1) !! keep
    ensures Span(at, 1) !! Above(c, keep) + Span(esp, 1) + Span(esp + 8, size)
    ensures Span(esp - 4, 1) !! Above(c, keep) + Span(esp, 1) + Span(esp + 8, size)
  {
  }

  lemma Untouched(m: Mem, at: int, v: Word, addrs: set<int>)
    requires Span(at, 1) !! addrs
    ensures Agree(m, Write(m, at, v), addrs)
  {
    hide ByteAt, Write;
    forall a | a in addrs
      ensures ByteAt(m, a) == ByteAt(Write(m, at, v), a)
    {
      WrittenByte(m, at, v, a);
      assert a !in Span(at, 1);
    }
  }

  lemma FrameSize(c: Cpu, e: Entry)
    ensures |Frame(c, e)| <= 19
  {
  }

  /** A timer interrupt as the user's stub begins. */
  function Ticking(c: Cpu, e: Entry, at: int, v: Word): CallInterrupts {
    CallInterrupts([[Taken(e, Tick(c, e, at, v))]], [], [], [])
  }

  /** The obligations can be met with an interrupt as well: its handler may write anywhere but into the two stacks. */
  lemma TickingCall(c: Cpu, e: Entry, at: int, v: Word, kernelRet: Word)
    requires Interruptible(c) && FromUser(c) && (at + 4 <= c.esp0 - 84 || c.esp0 <= at) && Span(at, 1) !! CallArea(c)
    ensures CallOrderly(c, Ticking(c, e, at, v), kernelRet, Done, CallArea(c))
  {
    hide Orderly, UserEntryCode, UserExitCode, KernelEntryCode, KernelExitCode, AtInt, AtCHandler, BehindIret;
    hide CallGuard, Get, Deliver, ByteAt, Read, Tick, Span, Interruptible, HandlerBehaves, CallArea;
    var x, keep := Ticking(c, e, at, v), CallArea(c);
    var u, k := AtInt(c, x), AtCHandler(c, x, kernelRet);
    TickBehaves(c, e, at, v, keep);
    TickOrderly(c, e, Tick(c, e, at, v), keep);
    QuietProgram(KernelEntryCode(), Deliver(u, None, false), keep);
    QuietProgram(KernelExitCode(), k.(esp := k.esp + 4), keep);
    QuietProgram(UserExitCode(), BehindIret(k, x), keep);
  }

  lemma TickOrderly(c: Cpu, e: Entry, body: Trace, keep: set<int>)
    requires Interruptible(c) && HandlerBehaves(c, e, body, Above(c, keep))
    ensures Orderly(UserEntryCode(), [[Taken(e, body)]], c, keep)
  {
    hide Step, HandlerBehaves, Interruptible, UserEntryCode, Interrupt;
    var code, ints := UserEntryCode(), [[Taken(e, body)]];
    assert Later(ints) == [] && [Taken(e, body)][1..] == [];
    assert AllBehave([], Interrupt(c, e, body), keep);
    if code != [] {
      QuietProgram(code[1..], Step(code[0], TakeAll(Now(ints), c)), keep);
    }
  }

  lemma CompletedAlike(c: Cpu, ret: Word, f: Cpu, f': Cpu, keep: set<int>)
    requires CallCompleted(c, ret, f) && Alike(f, f', keep) && FromUser(c)
    ensures CallCompleted(c, ret, f') && Get(f'.regs, EAX) == Get(f.regs, EAX)
    ensures SameBytes(f.mem, f'.mem, c.esp0, keep)
  {
    hide Get, ByteAt;
  }
}
