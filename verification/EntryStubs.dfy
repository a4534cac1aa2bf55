/** The assembly entry stubs as programs of a small stack machine (kernel/interrupt/idt_asm.s,
    kernel/syscall/syscall_asm.s, user/syscall_asm.s). */
module EntryStubs {
  import opened CTypes

  const KERNEL_CODE: Word := 0x08
  const KERNEL_DATA: Word := 0x10

  datatype Reg = EAX | EBX | ECX | EDX | ESI | EDI | EBP | DS | ES | FS | GS

  type Regs = map<Reg, Word>

  function Get(regs: Regs, r: Reg): Word {
    if r in regs then regs[r] else 0
  }

  predicate IsSegment(r: Reg) {
    r.DS? || r.ES? || r.FS? || r.GS?
  }

  /** Memory in bytes; a byte that is not in the map is 0. */
  type Mem = map<int, Byte>

  /** ss0 and esp0 are the kernel stack that the TSS names. */
  datatype Cpu = Cpu(regs: Regs, esp: int, eip: Word, eflags: Word, cs: Word, ss: Word, mem: Mem, ss0: Word, esp0: int)

  function ByteAt(mem: Mem, addr: int): Byte {
    if addr in mem then mem[addr] else 0
  }

  /** The word at an address, aligned or not. */
  function Read(mem: Mem, addr: int): Word {
    WordOf([ByteAt(mem, addr), ByteAt(mem, addr + 1), ByteAt(mem, addr + 2), ByteAt(mem, addr + 3)])
  }

  function Write(mem: Mem, addr: int, v: Word): (r: Mem)
    ensures Read(r, addr) == v
    ensures forall a | a <= addr - 4 || a >= addr + 4 :: Read(r, a) == Read(mem, a)
  {
    WordRoundTrip(v);
    var b := WordBytes(v);
    var r := mem[addr := b[0]][addr + 1 := b[1]][addr + 2 := b[2]][addr + 3 := b[3]];
    assert [ByteAt(r, addr), ByteAt(r, addr + 1), ByteAt(r, addr + 2), ByteAt(r, addr + 3)] == b;
    r
  }

  function Set(regs: Regs, r: Reg, v: Word): Regs {
    regs[r := if IsSegment(r) then v % 0x1_0000 else v]
  }

  /** Segment registers hold 16 bits. */
  ghost predicate WellFormed(c: Cpu) {
    forall r: Reg :: IsSegment(r) ==> Get(c.regs, r) < 0x1_0000
  }

  ghost predicate SameRegs(a: Regs, b: Regs) {
    forall r: Reg :: Get(a, r) == Get(b, r)
  }

  function PushWord(c: Cpu, v: Word): Cpu {
    c.(esp := c.esp - 4, mem := Write(c.mem, c.esp - 4, v))
  }

  // ----- instructions --------------------------------------------------------------------------------

  datatype Instr =
    | Push(r: Reg) | PushImm(v: Word) | Pop(r: Reg)
    | MovAx(v: Word)               // mov ax, v: the upper half of eax stays
    | MovSegment(r: Reg)           // mov r, ax
    | MovFromEsp(r: Reg)           // mov r, esp
    | MovToEsp(r: Reg)             // mov esp, r
    | Load(r: Reg, offset: int)    // mov r, [ebp + offset]
    | AddEsp(n: int)
    | Cli

  function ClearInterruptFlag(eflags: Word): Word {
    if eflags / 0x200 % 2 == 1 then eflags - 0x200 else eflags
  }

  function Step(i: Instr, c: Cpu): Cpu {
    match i
    case Push(r) => PushWord(c, Get(c.regs, r))
    case PushImm(v) => PushWord(c, v)
    case Pop(r) => c.(regs := Set(c.regs, r, Read(c.mem, c.esp)), esp := c.esp + 4)
    case MovAx(v) => c.(regs := Set(c.regs, EAX, Get(c.regs, EAX) / 0x1_0000 * 0x1_0000 + v % 0x1_0000))
    case MovSegment(r) => c.(regs := Set(c.regs, r, Get(c.regs, EAX) % 0x1_0000))
    case MovFromEsp(r) => c.(regs := Set(c.regs, r, Wrap(c.esp)))
    case MovToEsp(r) => c.(esp := Get(c.regs, r))
    case Load(r, offset) => c.(regs := Set(c.regs, r, Read(c.mem, Get(c.regs, EBP) + offset)))
    case AddEsp(n) => c.(esp := c.esp + n)
    case Cli => c.(eflags := ClearInterruptFlag(c.eflags))
  }

  function Run(program: seq<Instr>, c: Cpu): Cpu {
    if program == [] then c else Run(program[1..], Step(program[0], c))
  }

  lemma {:induction false} RunAppend(a: seq<Instr>, b: seq<Instr>, c: Cpu)
    ensures Run(a + b, c) == Run(b, Run(a, c))
    decreases |a|
  {
    if a == [] {
      assert a + b == b;
    } else {
      assert (a + b)[1..] == a[1..] + b;
      RunAppend(a[1..], b, Step(a[0], c));
    }
  }

  /** A processor that executes programs, instruction by instruction. */
  class Processor {
    var state: Cpu

    constructor (c: Cpu)
      ensures state == c
    {
      state := c;
    }

    method Execute(program: seq<Instr>)
      modifies this
      ensures state == Run(program, old(state))
    {
      for i := 0 to |program|
        invariant Run(program, old(state)) == Run(program[i..], state)
      {
        assert program[i..][1..] == program[i + 1..];
        state := Step(program[i], state);
      }
    }
  }

  function Pushes(rs: seq<Reg>): (p: seq<Instr>)
    ensures |p| == |rs| && forall i | 0 <= i < |rs| :: p[i] == Push(rs[i])
  {
    seq(|rs|, i requires 0 <= i < |rs| => Push(rs[i]))
  }

  function Pops(rs: seq<Reg>): (p: seq<Instr>)
    ensures |p| == |rs| && forall i | 0 <= i < |rs| :: p[i] == Pop(rs[i])
  {
    seq(|rs|, i requires 0 <= i < |rs| => Pop(rs[i]))
  }

  function Values(rs: seq<Reg>, regs: Regs): (v: seq<Word>)
    ensures |v| == |rs| && forall i | 0 <= i < |rs| :: v[i] == Get(regs, rs[i])
  {
    seq(|rs|, i requires 0 <= i < |rs| => Get(regs, rs[i]))
  }

  // ----- what lies on a stack --------------------------------------------------------------------------

  /** The words from address at on, lowest address first. */
  ghost predicate Stacked(mem: Mem, at: int, words: seq<Word>) {
    forall i | 0 <= i < |words| :: Read(mem, at + 4 * i) == words[i]
  }

  predicate InWords(a: int, at: int, n: nat) {
    at <= a < at + 4 * n
  }

  /** The addresses of the bytes of n words from at on. */
  ghost function Span(at: int, n: nat): set<int> {
    set a | at <= a < at + 4 * n && InWords(a, at, n)
  }

  ghost predicate Agree(m1: Mem, m2: Mem, addrs: set<int>) {
    forall a | a in addrs :: ByteAt(m1, a) == ByteAt(m2, a)
  }

  /** A word is known from its bytes. */
  lemma WordAgrees(m1: Mem, m2: Mem, at: int, addrs: set<int>)
    requires Agree(m1, m2, addrs) && Span(at, 1) <= addrs
    ensures Read(m1, at) == Read(m2, at)
  {
    hide ByteAt, WordOf;
    forall a | at <= a < at + 4
      ensures ByteAt(m1, a) == ByteAt(m2, a)
    {
      assert InWords(a, at, 1) && a in Span(at, 1);
    }
  }

  lemma SpanPart(at: int, i: nat, n: nat)
    requires i < n
    ensures Span(at + 4 * i, 1) <= Span(at, n)
  {
    forall a | a in Span(at + 4 * i, 1)
      ensures a in Span(at, n)
    {
      assert InWords(a, at, n);
    }
  }

  lemma StackedAgree(m1: Mem, m2: Mem, at: int, words: seq<Word>)
    requires Stacked(m1, at, words) && Agree(m1, m2, Span(at, |words|))
    ensures Stacked(m2, at, words)
  {
    forall i | 0 <= i < |words|
      ensures Read(m2, at + 4 * i) == words[i]
    {
      SpanPart(at, i, |words|);
      WordAgrees(m1, m2, at + 4 * i, Span(at, |words|));
    }
  }

  lemma StackedPush(c: Cpu, words: seq<Word>, v: Word)
    requires Stacked(c.mem, c.esp, words)
    ensures Stacked(PushWord(c, v).mem, c.esp - 4, [v] + words)
  {
    hide Read, Write;
    forall i | 0 <= i < |words| + 1
      ensures Read(PushWord(c, v).mem, c.esp - 4 + 4 * i) == ([v] + words)[i]
    {
      if i > 0 {
        assert c.esp - 4 + 4 * i == c.esp + 4 * (i - 1);
      }
    }
  }

  lemma StackedDrop(mem: Mem, at: int, words: seq<Word>, n: nat)
    requires Stacked(mem, at, words) && n <= |words|
    ensures Stacked(mem, at + 4 * n, words[n..])
  {
    forall i | 0 <= i < |words| - n
      ensures Read(mem, at + 4 * n + 4 * i) == words[n..][i]
    {
      assert at + 4 * n + 4 * i == at + 4 * (n + i);
    }
  }

  lemma StackedSplit(mem: Mem, at: int, a: seq<Word>, b: seq<Word>)
    requires Stacked(mem, at, a + b)
    ensures Stacked(mem, at, a) && Stacked(mem, at + 4 * |a|, b)
  {
    assert (a + b)[|a|..] == b;
    StackedDrop(mem, at, a + b, |a|);
    forall i | 0 <= i < |a|
      ensures Read(mem, at + 4 * i) == a[i]
    {
      assert (a + b)[i] == a[i];
    }
  }

  /** Memory at and above a given address is as it was. */
  ghost predicate SameFrom(m1: Mem, m2: Mem, from: int) {
    forall a | a >= from :: Read(m1, a) == Read(m2, a)
  }

  /** So is every byte there. */
  lemma SameBytesFrom(m1: Mem, m2: Mem, from: int)
    requires SameFrom(m1, m2, from)
    ensures forall a | a >= from :: ByteAt(m1, a) == ByteAt(m2, a)
  {
    hide Read, ByteAt;
    forall a | a >= from
      ensures ByteAt(m1, a) == ByteAt(m2, a)
    {
      LowByte(m1, a);
      LowByte(m2, a);
    }
  }

  lemma LowByte(m: Mem, a: int)
    ensures Read(m, a) % 256 == ByteAt(m, a)
  {
    var b0: int, b1: int, b2: int, b3: int := ByteAt(m, a), ByteAt(m, a + 1), ByteAt(m, a + 2), ByteAt(m, a + 3);
    hide ByteAt;
    assert Read(m, a) == b0 + (b1 + b2 * 256 + b3 * 0x1_0000) * 256;
  }

  lemma SameFromPush(m: Mem, c: Cpu, v: Word, m': Mem, from: int)
    requires m == c.mem && SameFrom(PushWord(c, v).mem, m', c.esp - 4) && c.esp <= from
    ensures SameFrom(m, m', from)
  {
  }

  /** Saving a list of registers: their values lie below the old stack top, the last one lowest. */
  lemma {:induction false} PushList(rs: seq<Reg>, c: Cpu, words: seq<Word>)
    requires Stacked(c.mem, c.esp, words)
    ensures var c' := Run(Pushes(rs), c);
            && c' == c.(esp := c.esp - 4 * |rs|, mem := c'.mem)
            && Stacked(c'.mem, c'.esp, Reversed(Values(rs, c.regs)) + words)
            && SameFrom(c.mem, c'.mem, c.esp)
    decreases |rs|
  {
    if rs == [] {
      assert Reversed(Values(rs, c.regs)) + words == words;
    } else {
      var v := Get(c.regs, rs[0]);
      PushFirst(rs, c);
      StackedPush(c, words, v);
      LastOnTop(rs, c.regs, words);
      hide Stacked, SameFrom, Read, Run, Reversed, Values, Pushes;
      PushList(rs[1..], PushWord(c, v), [v] + words);
      SameFromPush(c.mem, c, v, Run(Pushes(rs), c).mem, c.esp);
    }
  }

  lemma PushFirst(rs: seq<Reg>, c: Cpu)
    requires rs != []
    ensures Run(Pushes(rs), c) == Run(Pushes(rs[1..]), PushWord(c, Get(c.regs, rs[0])))
  {
    assert Pushes(rs)[1..] == Pushes(rs[1..]);
  }

  lemma LastOnTop(rs: seq<Reg>, regs: Regs, words: seq<Word>)
    requires rs != []
    ensures Reversed(Values(rs[1..], regs)) + ([Get(regs, rs[0])] + words) == Reversed(Values(rs, regs)) + words
  {
  }

  function SetAll(regs: Regs, rs: seq<Reg>, words: seq<Word>): Regs
    requires |rs| == |words|
    decreases |rs|
  {
    if rs == [] then regs else SetAll(Set(regs, rs[0], words[0]), rs[1..], words[1..])
  }

  /** Restoring a list of registers from the stack. */
  lemma {:induction false} PopList(rs: seq<Reg>, c: Cpu, words: seq<Word>)
    requires |rs| == |words| && Stacked(c.mem, c.esp, words)
    ensures Run(Pops(rs), c) == c.(regs := SetAll(c.regs, rs, words), esp := c.esp + 4 * |rs|)
    decreases |rs|
  {
    if rs != [] {
      assert Pops(rs)[1..] == Pops(rs[1..]);
      StackedDrop(c.mem, c.esp, words, 1);
      assert Read(c.mem, c.esp + 4 * 0) == words[0];
      PopList(rs[1..], Step(Pop(rs[0]), c), words[1..]);
    }
  }

  lemma {:induction false} SetAllKeeps(regs: Regs, rs: seq<Reg>, words: seq<Word>, r: Reg)
    requires |rs| == |words| && r !in rs
    ensures Get(SetAll(regs, rs, words), r) == Get(regs, r)
    decreases |rs|
  {
    if rs != [] {
      SetAllKeeps(Set(regs, rs[0], words[0]), rs[1..], words[1..], r);
    }
  }

  /** Distinct registers that get back the values of was. */
  lemma {:induction false} SetAllRestores(regs: Regs, rs: seq<Reg>, was: Regs, r: Reg)
    requires Distinct(rs) && r in rs && (IsSegment(r) ==> Get(was, r) < 0x1_0000)
    ensures Get(SetAll(regs, rs, Values(rs, was)), r) == Get(was, r)
    decreases |rs|
  {
    var words := Values(rs, was);
    assert words[1..] == Values(rs[1..], was);
    if rs[0] == r {
      SetAllKeeps(Set(regs, r, words[0]), rs[1..], words[1..], r);
    } else {
      assert r in rs[1..];
      SetAllRestores(Set(regs, rs[0], words[0]), rs[1..], was, r);
    }
  }
}
