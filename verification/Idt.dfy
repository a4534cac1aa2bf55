/** The interrupt descriptor table (kernel/interrupt/idt.c). */
module Idt {
  import EntryStubs
  import opened CTypes
  import opened Interrupts

  const IDT_ENTRIES := 256
  const TYPE_INTERRUPT_GATE: bv32 := 14
  const TYPE_TRAP_GATE: bv32 := 15
  const KERNEL_CODE_SELECTOR: bv32 := 8
  const SYSCALL_VECTOR := 48

  /** The fields of idt_entry_t, in memory order. */
  datatype IdtEntry = IdtEntry(
    offset15_0: bv32, selector: bv32, reserved: bv32, kind: bv32, dpl: bv32, present: bv32, offset31_16: bv32)

  function BuildEntry(selector: bv32, offset: bv32, kind: bv32, dpl: bv32): IdtEntry {
    IdtEntry(offset & 0xffff, selector, 0, kind, dpl, 1, (offset >> 16) & 0xffff)
  }

  // ----- what the processor reads --------------------------------------------------------------------

  function LowDword(e: IdtEntry): bv32 {
    e.offset15_0 | (e.selector << 16)
  }

  function HighDword(e: IdtEntry): bv32 {
    e.reserved | (e.kind << 8) | (e.dpl << 13) | (e.present << 15) | (e.offset31_16 << 16)
  }

  /** A gate, section 6.11 of volume 3A of the Intel 64 and IA-32 Architectures Software Developer's Manual: bits 8 to
      12 of the upper double word hold the type, 0xE for an interrupt gate and 0xF for a trap gate of 32 bits. */
  datatype Gate = Gate(selector: bv32, offset: bv32, trap: bool, dpl: bv32) | NoGate

  function Described(low: bv32, high: bv32): Gate {
    var kind := (high >> 8) & 0x1f;
    if (high >> 15) & 1 == 0 || !(kind == 0xe || kind == 0xf) then NoGate
    else Gate(low >> 16, (high & 0xffff_0000) | (low & 0xffff), kind == 0xf, (high >> 13) & 3)
  }

  function GateOf(e: IdtEntry): Gate {
    Described(LowDword(e), HighDword(e))
  }

  /** The processor reads back every offset, selector and privilege level, and which of the two kinds it is. */
  lemma GateRoundTrip(selector: bv32, offset: bv32, trap: bool, dpl: bv32)
    requires selector <= 0xffff && dpl <= 3
    ensures GateOf(BuildEntry(selector, offset, if trap then 15 else 14, dpl)) == Gate(selector, offset, trap, dpl)
  {
    var kind: bv32 := if trap then 15 else 14;
    var upper := (offset >> 16) & 0xffff;
    LowPart(selector, offset);
    UpperPart(upper, kind, dpl);
    WholeOffset(offset);
  }

  lemma LowPart(selector: bv32, offset: bv32)
    requires selector <= 0xffff
    ensures ((offset & 0xffff) | (selector << 16)) >> 16 == selector
    ensures ((offset & 0xffff) | (selector << 16)) & 0xffff == offset & 0xffff
  {
  }

  lemma UpperPart(upper: bv32, kind: bv32, dpl: bv32)
    requires upper <= 0xffff && kind <= 0x1f && dpl <= 3
    ensures var high := 0 | (kind << 8) | (dpl << 13) | (1 << 15) | (upper << 16);
            && (high >> 8) & 0x1f == kind && (high >> 13) & 3 == dpl && (high >> 15) & 1 == 1
            && high & 0xffff_0000 == upper << 16
  {
  }

  lemma WholeOffset(offset: bv32)
    ensures (((offset >> 16) & 0xffff) << 16) | (offset & 0xffff) == offset
    ensures (offset >> 16) & 0xffff <= 0xffff
  {
  }

  lemma NothingBuilt()
    ensures GateOf(IdtEntry(0, 0, 0, 0, 0, 0, 0)) == NoGate
  {
  }

  /** idt_init, given where the stubs are. The processor finds interrupt gates of the kernel at 0 to 20 and at 32 to 47,
      a trap gate that user programs may call at 48, and nothing elsewhere. */
  method IdtInit(exceptions: seq<bv32>, irqs: seq<bv32>, syscall: bv32) returns (idt: seq<IdtEntry>)
    requires |exceptions| == 21 && |irqs| == 16
    ensures |idt| == IDT_ENTRIES
    ensures forall v | 0 <= v <= 20 :: GateOf(idt[v]) == Gate(8, exceptions[v], false, 0)
    ensures forall v | 32 <= v < 48 :: GateOf(idt[v]) == Gate(8, irqs[v - 32], false, 0)
    ensures GateOf(idt[48]) == Gate(8, syscall, true, 3)
    ensures forall v | 0 <= v < IDT_ENTRIES && !(v <= 20 || 32 <= v <= 48) :: GateOf(idt[v]) == NoGate
  {
    hide GateOf, BuildEntry;
    NothingBuilt();
    idt := seq(IDT_ENTRIES, _ => IdtEntry(0, 0, 0, 0, 0, 0, 0));
    for i := 0 to 21
      invariant |idt| == IDT_ENTRIES
      invariant forall v | 0 <= v < i :: GateOf(idt[v]) == Gate(8, exceptions[v], false, 0)
      invariant forall v | i <= v < IDT_ENTRIES :: GateOf(idt[v]) == NoGate
    {
      GateRoundTrip(8, exceptions[i], false, 0);
      idt := idt[i := BuildEntry(KERNEL_CODE_SELECTOR, exceptions[i], TYPE_INTERRUPT_GATE, 0)];
    }
    for i := 0 to 16
      invariant |idt| == IDT_ENTRIES
      invariant forall v | 0 <= v <= 20 :: GateOf(idt[v]) == Gate(8, exceptions[v], false, 0)
      invariant forall v | 32 <= v < 32 + i :: GateOf(idt[v]) == Gate(8, irqs[v - 32], false, 0)
      invariant forall v | 21 <= v < IDT_ENTRIES && !(32 <= v < 32 + i) :: GateOf(idt[v]) == NoGate
    {
      GateRoundTrip(8, irqs[i], false, 0);
      idt := idt[32 + i := BuildEntry(KERNEL_CODE_SELECTOR, irqs[i], TYPE_INTERRUPT_GATE, 0)];
    }
    GateRoundTrip(8, syscall, true, 3);
    idt := idt[SYSCALL_VECTOR := BuildEntry(KERNEL_CODE_SELECTOR, syscall, TYPE_TRAP_GATE, 3)];
  }

  /** Every vector that the stub machine delivers has an interrupt gate, and with it delivery masks interrupts; the gate
      of system calls is a trap gate and does not. */
  lemma DeliveryFollowsGates(idt: seq<IdtEntry>, e: Entry, c: EntryStubs.Cpu)
    requires |idt| == IDT_ENTRIES && GateOf(idt[48]).Gate? && GateOf(idt[48]).trap
    requires forall v: Vector :: GateOf(idt[v]).Gate? && !GateOf(idt[v]).trap
    ensures Masked(Deliver(c, PushedCode(e), !GateOf(idt[e.vector]).trap).eflags, c.eflags)
    ensures Deliver(c, None, !GateOf(idt[48]).trap).eflags == c.eflags
  {
    MaskingInstructions(c, PushedCode(e));
    MaskingInstructions(c, None);
  }
}
