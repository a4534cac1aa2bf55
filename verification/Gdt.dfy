/** Segment descriptors and the global descriptor table (kernel/mem/gdt.c, gdt.h, descriptors.h). */
module Gdt {
  import opened CTypes

  const KERNEL_TSS_INDEX := 5
  const FIRST_TASK_INDEX := 6

  /** The fixed entries and one for each task slot. */
  const GDT_ENTRIES := 6 + 8

  const DPL_KERNEL: bv32 := 0
  const DPL_USER: bv32 := 3
  const TYPE_DATA_RW: bv32 := 3
  const TYPE_CODE_EXECONLY: bv32 := 9
  const TYPE_TSS: bv32 := 9

  /** sizeof(tss_t): the 104 bytes of the context and the 8 KB port permission bitmap. */
  const TSS_SIZE: bv32 := 104 + 8192

  /** The fields of gdt_entry_t, in memory order. */
  datatype GdtEntry = GdtEntry(
    lim15_0: bv32, base15_0: bv32, base23_16: bv32,
    kind: bv32, s: bv32, dpl: bv32, present: bv32,
    lim19_16: bv32, avl: bv32, l: bv32, db: bv32, granularity: bv32,
    base31_24: bv32)

  /** An address as 32 bits. */
  function Bits(addr: int): bv32 {
    (addr % 0x1_0000_0000) as bv32
  }

  function BuildEntry(base: bv32, limit: bv32, kind: bv32, s: bv32, db: bv32, granularity: bv32, dpl: bv32): GdtEntry {
    GdtEntry(
      limit & 0xffff, base & 0xffff, (base >> 16) & 0xff,
      kind, s, dpl, 1,
      (limit >> 16) & 0xf, 0, 0, db, granularity,
      (base >> 24) & 0xff)
  }

  function NullSegment(): GdtEntry {
    GdtEntry(0, 0, 0, 0, 0, 0, 0, 0, 0, 0, 0, 0, 0)
  }

  function CodeSegment(base: bv32, limit: bv32, dpl: bv32): GdtEntry {
    BuildEntry(base, limit, TYPE_CODE_EXECONLY, 1, 1, 1, dpl)
  }

  function DataSegment(base: bv32, limit: bv32, dpl: bv32): GdtEntry {
    BuildEntry(base, limit, TYPE_DATA_RW, 1, 1, 1, dpl)
  }

  function TssSegment(tss: bv32, dpl: bv32): GdtEntry {
    BuildEntry(tss, TSS_SIZE - 1, TYPE_TSS, 0, 0, 0, dpl)
  }

  /** gdt_entry_to_selector on the entry at the given index. */
  function Selector(index: nat): nat {
    index * 8
  }

  // ----- what the processor reads ------------------------------------------------------------------

  /** The two little-endian double words that the packed bit fields of an entry occupy. */
  function LowDword(e: GdtEntry): bv32 {
    e.lim15_0 | (e.base15_0 << 16)
  }

  function HighDword(e: GdtEntry): bv32 {
    e.base23_16
    | (e.kind << 8) | (e.s << 12) | (e.dpl << 13) | (e.present << 15)
    | (e.lim19_16 << 16) | (e.avl << 20) | (e.l << 21) | (e.db << 22) | (e.granularity << 23)
    | (e.base31_24 << 24)
  }

  /** Segment descriptor format, section 3.4.5 of the Intel 64 and IA-32 Architectures Software Developer's Manual. */
  function DescribedBase(low: bv32, high: bv32): bv32 {
    (high & 0xff00_0000) | ((high & 0xff) << 16) | (low >> 16)
  }

  function DescribedLimit(low: bv32, high: bv32): bv32 {
    (high & 0xf_0000) | (low & 0xffff)
  }

  datatype Rights = Rights(kind: bv32, s: bv32, dpl: bv32, present: bv32, db: bv32, granularity: bv32)

  function DescribedRights(high: bv32): Rights {
    Rights((high >> 8) & 0xf, (high >> 12) & 1, (high >> 13) & 3, (high >> 15) & 1, (high >> 22) & 1, (high >> 23) & 1)
  }

  /** The bit split loses nothing: the processor reads back every 32-bit base, every 20-bit limit and all rights. */
  lemma DescriptorRoundTrip(base: bv32, limit: bv32, kind: bv32, s: bv32, db: bv32, granularity: bv32, dpl: bv32)
    requires limit <= 0xf_ffff && kind <= 15 && s <= 1 && db <= 1 && granularity <= 1 && dpl <= 3
    ensures var e := BuildEntry(base, limit, kind, s, db, granularity, dpl);
            && DescribedBase(LowDword(e), HighDword(e)) == base
            && DescribedLimit(LowDword(e), HighDword(e)) == limit
            && DescribedRights(HighDword(e)) == Rights(kind, s, dpl, 1, db, granularity)
  {
  }

  lemma TssDescriptor(tss: bv32)
    ensures var e := TssSegment(tss, DPL_KERNEL);
            && DescribedBase(LowDword(e), HighDword(e)) == tss
            && DescribedLimit(LowDword(e), HighDword(e)) == 104 + 8192 - 1
            && DescribedRights(HighDword(e)) == Rights(9, 0, 0, 1, 0, 0)
  {
    DescriptorRoundTrip(tss, TSS_SIZE - 1, TYPE_TSS, 0, 0, 0, DPL_KERNEL);
  }

  /** The entries below the first task entry: flat segments and the initial TSS at the given address. */
  function FixedEntry(i: nat, initialTss: bv32): GdtEntry {
    if i == 1 then CodeSegment(0, 0xF_FFFF, DPL_KERNEL)
    else if i == 2 then DataSegment(0, 0xF_FFFF, DPL_KERNEL)
    else if i == 3 then CodeSegment(0, 0xF_FFFF, DPL_USER)
    else if i == 4 then DataSegment(0, 0xF_FFFF, DPL_USER)
    else if i == KERNEL_TSS_INDEX then TssSegment(initialTss, DPL_KERNEL)
    else NullSegment()
  }

  /** The last offset inside a segment: a limit with the granularity bit counts units of 4 KB. */
  function LastOffset(low: bv32, high: bv32): bv32 {
    var limit := DescribedLimit(low, high);
    if DescribedRights(high).granularity == 1 then (limit << 12) | 0xfff else limit
  }

  /** A present 32-bit segment over the whole address space, as the processor reads it. */
  predicate Flat(e: GdtEntry, kind: bv32, dpl: bv32) {
    && DescribedBase(LowDword(e), HighDword(e)) == 0
    && LastOffset(LowDword(e), HighDword(e)) == 0xffff_ffff
    && DescribedRights(HighDword(e)) == Rights(kind, 1, dpl, 1, 1, 1)
  }

  lemma FlatSegment(kind: bv32, dpl: bv32)
    requires kind <= 15 && dpl <= 3
    ensures Flat(BuildEntry(0, 0xF_FFFF, kind, 1, 1, 1, dpl), kind, dpl)
  {
    hide BuildEntry, LowDword, HighDword, DescribedBase, DescribedLimit, DescribedRights;
    DescriptorRoundTrip(0, 0xF_FFFF, kind, 1, 1, 1, dpl);
  }

  /** What the processor finds below the task entries: nothing at 0, flat code and data for the kernel, the same for
      user programs, and the initial TSS. */
  lemma FixedSegments(initialTss: bv32)
    ensures LowDword(FixedEntry(0, initialTss)) == HighDword(FixedEntry(0, initialTss)) == 0
    ensures Flat(FixedEntry(1, initialTss), 9, 0)
    ensures Flat(FixedEntry(2, initialTss), 3, 0)
    ensures Flat(FixedEntry(3, initialTss), 9, 3)
    ensures Flat(FixedEntry(4, initialTss), 3, 3)
    ensures DescribedBase(LowDword(FixedEntry(5, initialTss)), HighDword(FixedEntry(5, initialTss))) == initialTss
  {
    hide Flat, BuildEntry, LowDword, HighDword, DescribedBase, DescribedLimit, DescribedRights, TssSegment, NullSegment;
    FlatSegment(TYPE_CODE_EXECONLY, DPL_KERNEL);
    FlatSegment(TYPE_DATA_RW, DPL_KERNEL);
    FlatSegment(TYPE_CODE_EXECONLY, DPL_USER);
    FlatSegment(TYPE_DATA_RW, DPL_USER);
    TssDescriptor(initialTss);
    NothingThere();
  }

  lemma NothingThere()
    ensures LowDword(NullSegment()) == 0 && HighDword(NullSegment()) == 0
  {
    NothingIn(NullSegment());
    hide LowDword, HighDword;
  }

  lemma NothingIn(e: GdtEntry)
    requires e == NullSegment()
    ensures LowDword(e) == 0 && HighDword(e) == 0
  {
  }

  /** gdt_init. The processor finds flat segments in entries 1 to 4, and nothing present in the others, which are the
      zeroed static table. */
  method GdtInit() returns (gdt: seq<GdtEntry>)
    ensures |gdt| == GDT_ENTRIES
    ensures Flat(gdt[1], 9, 0) && Flat(gdt[2], 3, 0) && Flat(gdt[3], 9, 3) && Flat(gdt[4], 3, 3)
    ensures forall i | 0 <= i < GDT_ENTRIES && !(1 <= i <= 4) :: LowDword(gdt[i]) == HighDword(gdt[i]) == 0
    ensures forall i | 0 <= i < KERNEL_TSS_INDEX :: gdt[i] == FixedEntry(i, 0)
  {
    FixedSegments(0);
    NothingThere();
    hide Flat, BuildEntry, LowDword, HighDword, NullSegment;
    gdt := seq(GDT_ENTRIES, _ => NullSegment());
    gdt := gdt[1 := CodeSegment(0, 0xF_FFFF, DPL_KERNEL)];
    gdt := gdt[2 := DataSegment(0, 0xF_FFFF, DPL_KERNEL)];
    gdt := gdt[3 := CodeSegment(0, 0xF_FFFF, DPL_USER)];
    gdt := gdt[4 := DataSegment(0, 0xF_FFFF, DPL_USER)];
  }
}
