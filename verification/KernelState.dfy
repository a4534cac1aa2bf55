/** The static data of kernel/task/task.c and kernel/mem/gdt.c as values, the invariant that ties them together and what
    the single updates do to it. */
module KernelState {
  import opened CTypes
  import opened Paging
  import opened Gdt
  import opened TaskSpec

  datatype Module = Module(cmdline: seq<Byte>, addr: nat, size: nat)

  /** What does not change after boot: RAM as the boot loader and paging_mmap left it, the frames the allocator manages,
      the kernel's own page directory, the template for those of the tasks, the modules and the addresses of the static
      structures. */
  datatype Config = Config(
    ramPages: nat, pool: set<nat>, boot: Phys, kernelDir: seq<Pte>, templ: seq<Pte>,
    modules: seq<Module>, tasksAddr: nat, initialTss: nat)

  /** Frames of the kernel: not the allocator's. Frame 0, which a null pointer of a system call hits, holds nothing. */
  predicate Reserved(c: Config, f: nat) {
    f !in c.pool && f != 0
  }

  /** A directory that maps RAM to itself, for the kernel only, through page tables that the allocator leaves alone. */
  ghost predicate MapsRam(c: Config, dir: seq<Pte>) {
    && |dir| == PAGETABLES_IN_PD && c.ramPages <= TASK_FIRST_PAGE
    && (forall j | 0 <= j < TASK_FIRST_PDE :: dir[j].present ==> Reserved(c, dir[j].frame))
    && (forall page: nat | page < c.ramPages :: WalkPage(c.boot, dir, page) == Hit(page, false))
  }

  ghost predicate ConfigOk(c: Config) {
    // RAM ends below the tasks' address range; the allocator manages some of it, never frame 0
    && (forall f: nat :: f in c.boot <==> f < c.ramPages)
    && (forall f | f in c.pool :: f in c.boot && f != 0)
    && MapsRam(c, c.kernelDir) && MapsRam(c, c.templ)
    // the template maps nothing in the tasks' range; what it maps outside RAM is the frame buffer, which is not RAM
    && (forall j | 0 <= j < 1024 :: c.templ[j].present ==> Reserved(c, c.templ[j].frame))
    && (forall j | TASK_FIRST_PDE <= j < TASK_FIRST_PDE + MAX_TASK_TABLES :: !c.templ[j].present)
    && (forall page: nat | c.ramPages <= page < 0x10_0000 ::
          var w := WalkPage(c.boot, c.templ, page); w.Hit? ==> w.frame !in c.boot)
    // modules lie in RAM that the allocator leaves alone
    && (forall m | m in c.modules :: IsText(m.cmdline) && InKernelRam(c, m.addr, m.size))
    // so do the task table and the initial TSS
    && InKernelRam(c, c.tasksAddr, 8 * TASK_SIZE) && InKernelRam(c, c.initialTss, 8296)
  }

  ghost predicate InKernelRam(c: Config, addr: nat, size: nat) {
    && addr + size <= c.ramPages * PAGE_SIZE
    && forall f: nat | addr / PAGE_SIZE <= f <= (addr + size) / PAGE_SIZE :: Reserved(c, f)
  }

  ghost function ImageOf(c: Config, m: Module): (r: seq<Byte>)
    ensures |r| == m.size
    ensures forall k | 0 <= k < |r| :: r[k] == PageBytes(c.boot, (m.addr + k) / PAGE_SIZE)[(m.addr + k) % PAGE_SIZE]
  {
    seq(m.size, k requires 0 <= k < m.size => PageBytes(c.boot, (m.addr + k) / PAGE_SIZE)[(m.addr + k) % PAGE_SIZE])
  }

  lemma ImageByte(c: Config, phys: Phys, m: Module, k: nat)
    requires ConfigOk(c) && Untouched(c, phys) && m in c.modules && k < m.size
    ensures m.addr + k < c.ramPages * PAGE_SIZE
    ensures PageBytes(phys, (m.addr + k) / PAGE_SIZE)[(m.addr + k) % PAGE_SIZE] == ImageOf(c, m)[k]
  {
    assert InKernelRam(c, m.addr, m.size);
    var f := (m.addr + k) / PAGE_SIZE;
    assert m.addr / PAGE_SIZE <= f <= (m.addr + m.size) / PAGE_SIZE && f < c.ramPages;
    assert f in c.boot && Reserved(c, f) && phys[f] == c.boot[f];
    assert PageBytes(phys, f) == PageBytes(c.boot, f);
  }

  // ----- task slots ------------------------------------------------------------------------------

  datatype Tss = Tss(cr3: nat, ss0: nat, esp0: nat, eip: nat, eflags: nat, esp: nat, ebp: nat,
                     cs: nat, ds: nat, es: nat, fs: nat, gs: nat, ss: nat)

  datatype TaskSlot = TaskSlot(
    pagedir: seq<Pte>, tss: Tss, pageTables: seq<nat>, inUse: bool, id: nat, selector: nat,
    virtAddr: nat, addrSpaceSize: nat)

  /** A slot after memset(t, 0, sizeof(task_t)). */
  function ZeroSlot(): TaskSlot {
    TaskSlot(NoEntries(), ZeroTss(), NullPointers(), false, 0, 0, 0, 0)
  }

  function ZeroTss(): Tss {
    Tss(0, 0, 0, 0, 0, 0, 0, 0, 0, 0, 0, 0, 0)
  }

  /** Segment selectors of gdt.h and the interrupt flag. */
  const KERNEL_DATA := 16
  const USER_CODE := 24 + 3
  const USER_DATA := 32 + 3
  const INTERRUPTS_ENABLED := 0x200

  const TASK_SIZE := 0x15000
  const TSS_OFFSET := 0x1000
  const KERNEL_STACK_END := 0x14072

  /** Address of tasks[i] in the static array. */
  function SlotAddr(c: Config, i: nat): nat {
    c.tasksAddr + i * TASK_SIZE
  }

  /** The context a task starts from. */
  function StartTss(c: Config, i: nat, esp: nat): Tss {
    Tss(SlotAddr(c, i), KERNEL_DATA, SlotAddr(c, i) + KERNEL_STACK_END, TASK_VIRT_ADDR, INTERRUPTS_ENABLED, esp, esp,
        USER_CODE, USER_DATA, USER_DATA, 0, USER_DATA, USER_DATA)
  }

  ghost predicate SlotOk(c: Config, slot: TaskSlot, entry: GdtEntry, i: nat, lay: Layout, phys: Phys) {
    && slot.inUse && slot.id == i
    && slot.selector == Selector(FIRST_TASK_INDEX + i)
    && entry == TssSegment(Bits(SlotAddr(c, i) + TSS_OFFSET), DPL_KERNEL)
    && slot.virtAddr == TASK_VIRT_ADDR
    && slot.tss == StartTss(c, i, slot.tss.esp)
    && LayoutOk(lay)
    && Maps(phys, slot.pagedir, slot.pageTables, c.templ, lay.data, lay.tables)
  }

  /** The slots in use are the first |live| ones; each agrees with its GDT entry and its page tables. */
  ghost predicate Resident(c: Config, tasks: seq<TaskSlot>, gdt: seq<GdtEntry>, live: seq<Layout>, phys: Phys) {
    && |tasks| == MAX_TASK_COUNT && |gdt| == GDT_ENTRIES && |live| <= MAX_TASK_COUNT
    && (forall i | 0 <= i < MAX_TASK_COUNT :: tasks[i].inUse <==> i < |live|)
    && (forall i | 0 <= i < |live| :: SlotOk(c, tasks[i], gdt[FIRST_TASK_INDEX + i], i, live[i], phys))
    && (forall j | 0 <= j < FIRST_TASK_INDEX :: gdt[j] == FixedEntry(j, Bits(c.initialTss)))
  }

  /** The kernel's memory is as it was at boot. */
  ghost predicate Untouched(c: Config, phys: Phys) {
    phys.Keys == c.boot.Keys && forall f | f in c.boot && Reserved(c, f) :: phys[f] == c.boot[f]
  }

  /** The abstract tasks: what each live slot's page directory shows. */
  ghost function Stack(tasks: seq<TaskSlot>, live: seq<Layout>, phys: Phys): (r: seq<Task>)
    requires |live| <= |tasks|
    ensures |r| == |live|
  {
    seq(|live|, i requires 0 <= i < |live| =>
      Task(Memory(phys, live[i].data), tasks[i].tss.esp, live[i]))
  }

  ghost predicate Good(c: Config, tasks: seq<TaskSlot>, gdt: seq<GdtEntry>, live: seq<Layout>, phys: Phys,
                       free: set<nat>) {
    && Resident(c, tasks, gdt, live, phys)
    && Untouched(c, phys)
    && Separated(live, free)
    && free + Owned(live) <= c.pool
  }

  ghost predicate SameOutside(phys: Phys, phys': Phys, changed: set<nat>) {
    phys'.Keys == phys.Keys && forall f | f in phys && f !in changed :: phys'[f] == phys[f]
  }

  /** A mapping under construction: zeroed pages behind page tables, all taken from free0 since phys0. */
  ghost predicate Building(phys0: Phys, free0: set<nat>, phys: Phys, free: set<nat>,
                           dir: seq<Pte>, ptrs: seq<nat>, templ: seq<Pte>, lay: Layout) {
    && Maps(phys, dir, ptrs, templ, lay.data, lay.tables)
    && Allocated(phys0, free0, phys, free, FramesOf(lay))
    && forall q | 0 <= q < |lay.data| :: lay.data[q] in phys && phys[lay.data[q]] == Data(Zeros(PAGE_SIZE))
  }

  lemma BuildTable(phys0: Phys, free0: set<nat>, phys: Phys, free: set<nat>,
                   dir: seq<Pte>, ptrs: seq<nat>, templ: seq<Pte>, lay: Layout, f: nat)
    requires Building(phys0, free0, phys, free, dir, ptrs, templ, lay)
    requires |lay.data| == |lay.tables| * PAGES_IN_PT && |lay.tables| < MAX_TASK_TABLES
    requires f in free && f != 0
    ensures Building(phys0, free0, phys[f := Table(NoEntries())], free - {f},
                     dir[TASK_FIRST_PDE + |lay.tables| := UserPte(f)],
                     ptrs[|lay.tables| := f * PAGE_SIZE], templ, lay.(tables := lay.tables + [f]))
  {
    var phys' := phys[f := Table(NoEntries())];
    assert f !in FramesOf(lay);
    AddTable(phys, dir, ptrs, templ, lay.data, lay.tables, f);
    AllocatedMore(phys0, free0, phys, free, FramesOf(lay), f, phys');
    FramesGrow(lay, f);
  }

  lemma BuildPage(phys0: Phys, free0: set<nat>, phys: Phys, free: set<nat>,
                  dir: seq<Pte>, ptrs: seq<nat>, templ: seq<Pte>, lay: Layout, g: nat)
    requires Building(phys0, free0, phys, free, dir, ptrs, templ, lay)
    requires |lay.data| < |lay.tables| * PAGES_IN_PT && g in free
    ensures |lay.data| / PAGES_IN_PT < |lay.tables|
    ensures var t := lay.tables[|lay.data| / PAGES_IN_PT];
            t in phys && phys[t].Table? && |phys[t].entries| == 1024 &&
            Building(phys0, free0,
                     phys[g := Data(Zeros(PAGE_SIZE))]
                         [t := Table(phys[t].entries[|lay.data| % PAGES_IN_PT := UserPte(g)])],
                     free - {g}, dir, ptrs, templ, lay.(data := lay.data + [g]))
  {
    hide Maps, IsTable;
    assert g !in FramesOf(lay);
    AddPage(phys, dir, ptrs, templ, lay.data, lay.tables, g);
    var t := lay.tables[|lay.data| / PAGES_IN_PT];
    var phys' := phys[g := Data(Zeros(PAGE_SIZE))][t := Table(phys[t].entries[|lay.data| % PAGES_IN_PT := UserPte(g)])];
    assert t in FramesOf(lay);
    ZeroPages(phys, dir, ptrs, templ, lay, g, |lay.data| / PAGES_IN_PT, phys');
    AllocatedMore(phys0, free0, phys, free, FramesOf(lay), g, phys');
    FramesGrow(lay, g);
  }

  lemma ZeroPages(phys: Phys, dir: seq<Pte>, ptrs: seq<nat>, templ: seq<Pte>, lay: Layout, g: nat, k: nat, phys': Phys)
    requires Maps(phys, dir, ptrs, templ, lay.data, lay.tables) && k < |lay.tables| && g != lay.tables[k]
    requires forall q | 0 <= q < |lay.data| :: lay.data[q] in phys && phys[lay.data[q]] == Data(Zeros(PAGE_SIZE))
    requires lay.tables[k] in phys'
    requires phys' == phys[g := Data(Zeros(PAGE_SIZE))][lay.tables[k] := phys'[lay.tables[k]]]
    ensures forall q | 0 <= q < |lay.data| + 1 ::
              (lay.data + [g])[q] in phys' && phys'[(lay.data + [g])[q]] == Data(Zeros(PAGE_SIZE))
  {
    hide IsTable;
    forall q | 0 <= q < |lay.data| + 1
      ensures (lay.data + [g])[q] in phys' && phys'[(lay.data + [g])[q]] == Data(Zeros(PAGE_SIZE))
    {
      if q < |lay.data| {
        assert lay.data[q] != lay.tables[k];
      }
    }
  }

  /** What other kernel code and the processor rely on for a live slot: its id, its selector, a GDT entry that describes
      its TSS, which is the second field of task_t, and a context with the page directory, which is the first, the end
      of the kernel stack, the entry point, interrupts enabled, and the selectors of the flat segments. The offsets are
      those of TaskLayout.TaskFields. */
  predicate Published(c: Config, slot: TaskSlot, entry: GdtEntry, i: nat) {
    && slot.inUse && slot.id == i && slot.selector == 8 * (6 + i)
    && slot.tss.cr3 == SlotAddr(c, i)
    && DescribedBase(LowDword(entry), HighDword(entry)) == Bits(slot.tss.cr3 + 0x1000)
    && DescribedLimit(LowDword(entry), HighDword(entry)) == 8296 - 1
    && DescribedRights(HighDword(entry)) == Rights(9, 0, 0, 1, 0, 0)
    && slot.tss.esp0 == slot.tss.cr3 + 0x4072 + 65536 && slot.tss.ss0 == 8 * 2
    && slot.virtAddr == slot.tss.eip == 0x4000_0000 && slot.tss.esp == slot.tss.ebp
    && slot.tss.eflags == 0x200 && slot.tss.cs == 8 * 3 + 3
    && slot.tss.ss == slot.tss.ds == slot.tss.es == slot.tss.gs == 8 * 4 + 3
  }

  lemma SlotPublished(c: Config, slot: TaskSlot, entry: GdtEntry, i: nat, lay: Layout, phys: Phys)
    requires SlotOk(c, slot, entry, i, lay, phys)
    ensures Published(c, slot, entry, i)
  {
    hide TssSegment, LowDword, HighDword, DescribedBase, DescribedLimit, DescribedRights;
    hide Maps, SlotAddr, Bits, LayoutOk;
    TssDescriptor(Bits(SlotAddr(c, i) + TSS_OFFSET));
  }

  /** The slots lie one behind the other in the kernel's memory, as far apart as task_t is long, below the programs. */
  lemma SlotsApart(c: Config, i: nat, j: nat)
    requires ConfigOk(c) && i < j < 8
    ensures SlotAddr(c, i) + 0x15000 <= SlotAddr(c, j)
    ensures SlotAddr(c, j) + 0x15000 <= c.ramPages * 4096 <= 0x4000_0000
  {
  }

  // ----- consequences ----------------------------------------------------------------------------

  /** A directory that mapped RAM to itself at boot still does: the allocator hands out nothing of the mapping. */
  lemma RamWalk(c: Config, dir: seq<Pte>, phys: Phys, page: nat)
    requires MapsRam(c, dir) && Untouched(c, phys) && page < c.ramPages
    ensures WalkPage(phys, dir, page) == Hit(page, false)
  {
    var j := page / PAGES_IN_PT;
    assert j < TASK_FIRST_PDE;
    assert WalkPage(c.boot, dir, page) == Hit(page, false);
    assert dir[j].present ==> Reserved(c, dir[j].frame);
  }

  lemma SlotMapsRam(c: Config, tasks: seq<TaskSlot>, gdt: seq<GdtEntry>, live: seq<Layout>, phys: Phys, i: nat)
    requires ConfigOk(c) && Resident(c, tasks, gdt, live, phys) && i < |live|
    ensures MapsRam(c, tasks[i].pagedir)
  {
    var dir := tasks[i].pagedir;
    assert SlotOk(c, tasks[i], gdt[FIRST_TASK_INDEX + i], i, live[i], phys);
    assert forall j | 0 <= j < TASK_FIRST_PDE :: dir[j] == c.templ[j];
    forall page: nat | page < c.ramPages
      ensures WalkPage(c.boot, dir, page) == Hit(page, false)
    {
      assert WalkPage(c.boot, c.templ, page) == Hit(page, false);
      assert page / PAGES_IN_PT < TASK_FIRST_PDE;
    }
  }

  /** In the page directory of a live slot, RAM is where it always was, readable by the kernel only. */
  lemma IdentityWalk(c: Config, tasks: seq<TaskSlot>, gdt: seq<GdtEntry>, live: seq<Layout>, phys: Phys, i: nat,
                     page: nat)
    requires ConfigOk(c) && Resident(c, tasks, gdt, live, phys) && Untouched(c, phys)
    requires i < |live| && page < c.ramPages
    ensures |tasks[i].pagedir| == PAGETABLES_IN_PD
    ensures WalkPage(phys, tasks[i].pagedir, page) == Hit(page, false)
  {
    SlotMapsRam(c, tasks, gdt, live, phys, i);
    RamWalk(c, tasks[i].pagedir, phys, page);
  }

  /** Walks through template entries read tables of the kernel, so they are the walks made at boot. */
  lemma TemplateWalk(c: Config, phys: Phys, page: nat)
    requires ConfigOk(c) && Untouched(c, phys) && page < 0x10_0000
    ensures WalkPage(phys, c.templ, page) == WalkPage(c.boot, c.templ, page)
  {
    assert c.templ[page / PAGES_IN_PT].present ==> Reserved(c, c.templ[page / PAGES_IN_PT].frame);
  }

  /** Frames of live tasks are in the pool, in RAM, not free and not shared. */
  lemma LiveFrames(c: Config, tasks: seq<TaskSlot>, gdt: seq<GdtEntry>, live: seq<Layout>, phys: Phys, free: set<nat>,
                   i: nat)
    requires Good(c, tasks, gdt, live, phys, free) && i < |live|
    ensures FramesOf(live[i]) <= c.pool
    ensures FramesOf(live[i]) !! free
    ensures forall j | i < j < |live| :: FramesOf(live[i]) !! FramesOf(live[j])
  {
    SeparatedMember(live, free, i);
    forall j | i < j < |live|
      ensures FramesOf(live[i]) !! FramesOf(live[j])
    {
      SeparatedPairwise(live, free, i, j);
    }
  }

  /** A change of memory outside a slot's frames neither breaks the slot nor shows in its task. */
  lemma SlotFrame(c: Config, slot: TaskSlot, entry: GdtEntry, i: nat, lay: Layout, phys: Phys, phys': Phys,
                  changed: set<nat>)
    requires SlotOk(c, slot, entry, i, lay, phys)
    requires SameOutside(phys, phys', changed) && changed !! FramesOf(lay)
    ensures SlotOk(c, slot, entry, i, lay, phys')
    ensures Memory(phys', lay.data) == Memory(phys, lay.data)
  {
    hide Maps, SameOn, SameOutside, PageBytes, TssSegment, SlotAddr, Bits, StartTss, FramesOf, LayoutOk;
    FramesKept(phys, phys', slot.pagedir, slot.pageTables, c.templ, lay, changed);
    MapsFrame(phys, phys', slot.pagedir, slot.pageTables, c.templ, lay.data, lay.tables);
    MemoryFrame(phys, phys', lay.data);
  }

  lemma FramesKept(phys: Phys, phys': Phys, dir: seq<Pte>, ptrs: seq<nat>, templ: seq<Pte>, lay: Layout,
                   changed: set<nat>)
    requires Maps(phys, dir, ptrs, templ, lay.data, lay.tables)
    requires SameOutside(phys, phys', changed) && changed !! FramesOf(lay)
    ensures SameOn(phys, phys', lay.data, lay.tables)
    ensures forall p | 0 <= p < |lay.data| :: PageBytes(phys', lay.data[p]) == PageBytes(phys, lay.data[p])
  {
    hide IsTable;
    forall t | 0 <= t < |lay.tables|
      ensures lay.tables[t] in phys && lay.tables[t] in phys' && phys'[lay.tables[t]] == phys[lay.tables[t]]
    {
      assert lay.tables[t] in FramesOf(lay);
    }
    forall p | 0 <= p < |lay.data|
      ensures lay.data[p] in phys && lay.data[p] in phys' && phys'[lay.data[p]] == phys[lay.data[p]]
    {
      assert lay.data[p] in FramesOf(lay);
    }
  }

  /** Changing frames that are free or belong to slot m leaves boot memory and the slots below m as they are. */
  lemma Bystanders(c: Config, tasks: seq<TaskSlot>, gdt: seq<GdtEntry>, live: seq<Layout>, phys: Phys, free: set<nat>,
                   phys': Phys, changed: set<nat>, m: nat)
    requires Good(c, tasks, gdt, live, phys, free) && m <= |live|
    requires SameOutside(phys, phys', changed)
    requires if m < |live| then changed <= FramesOf(live[m]) else changed <= free
    ensures Untouched(c, phys')
    ensures forall i | 0 <= i < m :: SlotOk(c, tasks[i], gdt[FIRST_TASK_INDEX + i], i, live[i], phys')
    ensures Stack(tasks, live[..m], phys') == Stack(tasks, live, phys)[..m]
  {
    if m < |live| {
      LiveFrames(c, tasks, gdt, live, phys, free, m);
    }
    assert changed <= c.pool;
    forall i | 0 <= i < m
      ensures SlotOk(c, tasks[i], gdt[FIRST_TASK_INDEX + i], i, live[i], phys')
      ensures Memory(phys', live[i].data) == Memory(phys, live[i].data)
    {
      LiveFrames(c, tasks, gdt, live, phys, free, i);
      SlotFrame(c, tasks[i], gdt[FIRST_TASK_INDEX + i], i, live[i], phys, phys', changed);
    }
  }

  // ----- the three updates -----------------------------------------------------------------------

  /** The occupied slots below n, and slot n with the given contents, make a table with n + 1 slots in use. */
  lemma ResidentPush(c: Config, tasks: seq<TaskSlot>, gdt: seq<GdtEntry>, live: seq<Layout>, phys: Phys,
                     slot: TaskSlot, entry: GdtEntry, lay: Layout, phys': Phys)
    requires Resident(c, tasks, gdt, live, phys) && |live| < MAX_TASK_COUNT
    requires forall i | 0 <= i < |live| :: SlotOk(c, tasks[i], gdt[FIRST_TASK_INDEX + i], i, live[i], phys')
    requires SlotOk(c, slot, entry, |live|, lay, phys')
    ensures Resident(c, tasks[|live| := slot], gdt[FIRST_TASK_INDEX + |live| := entry], live + [lay], phys')
  {
    var n := |live|;
    var tasks', gdt', live' := tasks[n := slot], gdt[FIRST_TASK_INDEX + n := entry], live + [lay];
    forall i | 0 <= i < |live'|
      ensures SlotOk(c, tasks'[i], gdt'[FIRST_TASK_INDEX + i], i, live'[i], phys')
    {
      if i < n {
        assert SlotOk(c, tasks[i], gdt[FIRST_TASK_INDEX + i], i, live[i], phys');
      }
    }
  }

  lemma StackPush(tasks: seq<TaskSlot>, live: seq<Layout>, phys: Phys, slot: TaskSlot, lay: Layout, phys': Phys)
    requires |live| < |tasks|
    requires Stack(tasks, live, phys') == Stack(tasks, live, phys)
    ensures Stack(tasks[|live| := slot], live + [lay], phys')
            == Stack(tasks, live, phys) + [Task(Memory(phys', lay.data), slot.tss.esp, lay)]
  {
    var n := |live|;
    var stack' := Stack(tasks[n := slot], live + [lay], phys');
    forall i | 0 <= i < n
      ensures stack'[i] == Stack(tasks, live, phys)[i]
    {
      assert stack'[i] == Stack(tasks, live, phys')[i];
    }
  }

  /** A new slot on top, with frames taken from the pool. */
  lemma PushSlot(c: Config, tasks: seq<TaskSlot>, gdt: seq<GdtEntry>, live: seq<Layout>, phys: Phys, free: set<nat>,
                 slot: TaskSlot, entry: GdtEntry, lay: Layout, phys': Phys)
    requires Good(c, tasks, gdt, live, phys, free) && |live| < MAX_TASK_COUNT
    requires SlotOk(c, slot, entry, |live|, lay, phys')
    requires FramesOf(lay) <= free && SameOutside(phys, phys', FramesOf(lay))
    ensures var n := |live|;
            var tasks' := tasks[n := slot];
            && Good(c, tasks', gdt[FIRST_TASK_INDEX + n := entry], live + [lay], phys', free - FramesOf(lay))
            && Stack(tasks', live + [lay], phys')
               == Stack(tasks, live, phys) + [Task(Memory(phys', lay.data), slot.tss.esp, lay)]
  {
    var n := |live|;
    Bystanders(c, tasks, gdt, live, phys, free, phys', FramesOf(lay), n);
    assert live[..n] == live;
    ResidentPush(c, tasks, gdt, live, phys, slot, entry, lay, phys');
    StackPush(tasks, live, phys, slot, lay, phys');
    SeparatedPush(live, free, lay);
  }

  lemma PoolFacts(c: Config, tasks: seq<TaskSlot>, gdt: seq<GdtEntry>, live: seq<Layout>, phys: Phys, free: set<nat>)
    requires ConfigOk(c) && Good(c, tasks, gdt, live, phys, free)
    ensures |tasks| == MAX_TASK_COUNT && |gdt| == GDT_ENTRIES
    ensures 0 !in free && free <= phys.Keys
    ensures |c.templ| == 1024
    ensures forall j | TASK_FIRST_PDE <= j < TASK_FIRST_PDE + MAX_TASK_TABLES :: !c.templ[j].present
  {
  }

  /** The largest request fits the page tables a task can have, and needs all of them. */
  lemma RequestBound(imageSize: nat, argsSize: nat)
    requires imageSize <= MAX_IMAGE && argsSize <= 1249
    ensures TableCount(PageCount(imageSize + 2 * argsSize + STACK_SIZE)) <= MAX_TASK_TABLES
    ensures TableCount(PageCount(MAX_IMAGE + 2 * 1249 + STACK_SIZE)) == MAX_TASK_TABLES
  {
  }

  /** What task_create leaves in slot i and its GDT entry. */
  function FreshSlot(c: Config, i: nat, size: nat, esp: nat, dir: seq<Pte>, ptrs: seq<nat>): TaskSlot {
    TaskSlot(dir, StartTss(c, i, esp), ptrs, true, i, Selector(FIRST_TASK_INDEX + i), TASK_VIRT_ADDR, size)
  }

  function FreshEntry(c: Config, i: nat): GdtEntry {
    TssSegment(Bits(SlotAddr(c, i) + TSS_OFFSET), DPL_KERNEL)
  }

  lemma CreateSlot(c: Config, tasks: seq<TaskSlot>, gdt: seq<GdtEntry>, live: seq<Layout>, phys: Phys, free: set<nat>,
                   phys': Phys, free': set<nat>, dir: seq<Pte>, ptrs: seq<nat>, lay: Layout, size: nat, esp: nat)
    requires Good(c, tasks, gdt, live, phys, free) && |live| < MAX_TASK_COUNT
    requires Building(phys, free, phys', free', dir, ptrs, c.templ, lay) && LayoutOk(lay)
    ensures FramesOf(lay) <= free && free' == free - FramesOf(lay)
    ensures var n := |live|;
            var tasks' := tasks[n := FreshSlot(c, n, size, esp, dir, ptrs)];
            && Good(c, tasks', gdt[FIRST_TASK_INDEX + n := FreshEntry(c, n)], live + [lay], phys', free')
            && Stack(tasks', live + [lay], phys')
               == Stack(tasks, live, phys) + [Task(Memory(phys', lay.data), esp, lay)]
  {
    var n := |live|;
    PushSlot(c, tasks, gdt, live, phys, free, FreshSlot(c, n, size, esp, dir, ptrs), FreshEntry(c, n), lay, phys');
  }

  /** A byte stored into a page of the top task changes that byte of that task and nothing else anywhere. */
  lemma StoreTop(c: Config, tasks: seq<TaskSlot>, gdt: seq<GdtEntry>, live: seq<Layout>, phys: Phys, free: set<nat>,
                 k: nat, b: Byte)
    requires Good(c, tasks, gdt, live, phys, free) && live != []
    requires k < |live[|live| - 1].data| * PAGE_SIZE
    ensures var n := |live| - 1;
            var phys' := StoreByte(phys, live[n].data[k / PAGE_SIZE], k % PAGE_SIZE, b);
            var stack := Stack(tasks, live, phys);
            && Good(c, tasks, gdt, live, phys', free)
            && Stack(tasks, live, phys') == stack[n := stack[n].(memory := stack[n].memory[k := b])]
  {
    hide Maps, IsTable, SlotAddr, Bits, PageBytes;
    var n := |live| - 1;
    var lay := live[n];
    var p, offset := k / PAGE_SIZE, k % PAGE_SIZE;
    var phys' := StoreByte(phys, lay.data[p], offset, b);
    assert lay.data[p] in FramesOf(lay);
    TopMapped(c, tasks, gdt, live, phys);
    assert lay.data[p] !in lay.tables;
    hide BuildEntry;
    Bystanders(c, tasks, gdt, live, phys, free, phys', {lay.data[p]}, n);
    StoreKeepsMaps(phys, tasks[n].pagedir, tasks[n].pageTables, c.templ, lay.data, lay.tables, lay.data[p], offset, b);
    ResidentTop(c, tasks, gdt, live, phys, phys');
    StoreMemory(phys, lay.data, k, b);
    StackSplit(tasks, live, phys);
    StackSplit(tasks, live, phys');
  }

  /** The same through the page directory: what the processor does for a store at addr. */
  lemma StoreThrough(c: Config, tasks: seq<TaskSlot>, gdt: seq<GdtEntry>, live: seq<Layout>, phys: Phys, free: set<nat>,
                     addr: nat, b: Byte)
    requires Good(c, tasks, gdt, live, phys, free) && live != []
    requires TASK_VIRT_ADDR <= addr < TASK_VIRT_ADDR + |live[|live| - 1].data| * PAGE_SIZE
    ensures |tasks| == MAX_TASK_COUNT && |tasks[|live| - 1].pagedir| == 1024 && addr / PAGE_SIZE < 0x10_0000
    ensures var n := |live| - 1;
            var walk := WalkPage(phys, tasks[n].pagedir, addr / PAGE_SIZE);
            var stack := Stack(tasks, live, phys);
            && walk.Hit? && walk.user
            && var phys' := StoreByte(phys, walk.frame, addr % PAGE_SIZE, b);
            && Good(c, tasks, gdt, live, phys', free)
            && Stack(tasks, live, phys') == stack[n := stack[n].(memory := stack[n].memory[addr - TASK_VIRT_ADDR := b])]
  {
    hide Good, Maps, Memory, StoreByte;
    var n, k := |live| - 1, addr - TASK_VIRT_ADDR;
    var p := k / PAGE_SIZE;
    assert addr / PAGE_SIZE == TASK_FIRST_PAGE + p && addr % PAGE_SIZE == k % PAGE_SIZE;
    TopSlot(c, tasks, gdt, live, phys, free);
    WalkTask(phys, tasks[n].pagedir, tasks[n].pageTables, c.templ, live[n].data, live[n].tables, p);
    StoreTop(c, tasks, gdt, live, phys, free, k, b);
  }

  // ----- what the loaded page directory maps ----------------------------------------------------------

  /** The running task's own addresses. */
  predicate Own(live: seq<Layout>, addr: Word) {
    live != [] && 0 <= addr - TASK_VIRT_ADDR < |live[|live| - 1].data| * PAGE_SIZE
  }

  /** What the template maps outside RAM: the frame buffer. */
  function FrameBuffer(c: Config, page: nat): Walk {
    if |c.templ| == PAGETABLES_IN_PD && c.ramPages <= page < 0x10_0000 then WalkPage(c.boot, c.templ, page) else Fault
  }

  /** While a task runs, the processor finds RAM under its physical address, for the kernel only; the task's own pages;
      the frame buffer; and nothing else. */
  lemma WalkAnywhere(c: Config, tasks: seq<TaskSlot>, gdt: seq<GdtEntry>, live: seq<Layout>, phys: Phys,
                     free: set<nat>, addr: Word)
    requires ConfigOk(c) && Good(c, tasks, gdt, live, phys, free) && live != []
    ensures |live| <= |tasks| && |tasks[|live| - 1].pagedir| == PAGETABLES_IN_PD && addr / PAGE_SIZE < 0x10_0000
    ensures var page := addr / PAGE_SIZE;
            var walk := WalkPage(phys, tasks[|live| - 1].pagedir, page);
            if page < c.ramPages then walk == Hit(page, false) && page in phys && !Own(live, addr)
            else if Own(live, addr) then walk.Hit? && walk.user && walk.frame in phys
            else walk == FrameBuffer(c, page) && (walk.Hit? ==> walk.frame !in phys)
  {
    var n, page := |live| - 1, addr / PAGE_SIZE;
    TopSlot(c, tasks, gdt, live, phys, free);
    if page < c.ramPages {
      IdentityWalk(c, tasks, gdt, live, phys, n, page);
      hide WalkPage;
    } else if Own(live, addr) {
      InsideWalk(c, tasks, gdt, live, phys, addr);
      hide WalkPage;
    } else {
      WalkElsewhere(phys, tasks[n].pagedir, tasks[n].pageTables, c.templ, live[n].data, live[n].tables, page);
      TemplateWalk(c, phys, page);
      hide WalkPage, Maps;
      var w := WalkPage(c.boot, c.templ, page);
      assert w.Hit? ==> w.frame !in c.boot;
    }
  }

  /** A program can use its own addresses and, as far as the template lets it, the frame buffer. */
  predicate UserReaches(c: Config, own: bool, addr: Word) {
    own || (var w := FrameBuffer(c, addr / PAGE_SIZE); w.Hit? && w.user)
  }

  /** A user store at any address at all: inside the running task it is StoreThrough, elsewhere it reaches no RAM, and
      it is carried out without a fault exactly if the program can use the address. */
  lemma StoreAnywhere(c: Config, tasks: seq<TaskSlot>, gdt: seq<GdtEntry>, live: seq<Layout>, phys: Phys,
                      free: set<nat>, addr: Word, b: Byte)
    requires ConfigOk(c) && Good(c, tasks, gdt, live, phys, free) && live != []
    ensures |tasks| == MAX_TASK_COUNT && |live| <= |tasks| && |tasks[|live| - 1].pagedir| == 1024
    ensures addr / PAGE_SIZE < 0x10_0000
    ensures var walk := WalkPage(phys, tasks[|live| - 1].pagedir, addr / PAGE_SIZE);
            var s := System(Stack(tasks, live, phys), free);
            && (walk.Hit? && walk.user <==> UserReaches(c, Own(live, addr), addr))
            && if walk.Hit? && walk.user && walk.frame in phys then
                 var phys' := StoreByte(phys, walk.frame, addr % PAGE_SIZE, b);
                 && Good(c, tasks, gdt, live, phys', free)
                 && System(Stack(tasks, live, phys'), free) == Apply(s, Store(addr, b), false)
               else Apply(s, Store(addr, b), false) == s
  {
    hide StoreByte, WalkPage, Memory, Good, ConfigOk;
    TopSlot(c, tasks, gdt, live, phys, free);
    WalkAnywhere(c, tasks, gdt, live, phys, free, addr);
    if Own(live, addr) {
      StoreThrough(c, tasks, gdt, live, phys, free, addr, b);
    }
  }

  // ----- stores by the kernel itself ------------------------------------------------------------------

  /** What exception_handler writes over the instruction that faulted: the opcode of iret. */
  const IRET_OPCODE: Byte := 0xCF

  /** An instruction of the kernel that loads or stores, which is no iret. */
  ghost predicate KernelCode(c: Config, eip: Word) {
    var frame := eip / PAGE_SIZE;
    && frame in c.boot && Reserved(c, frame) && IsPage(c.boot[frame])
    && c.boot[frame].bytes[eip % PAGE_SIZE] != IRET_OPCODE
  }

  /** The byte belongs to a page table of the task, and to an entry in use or to the low byte of one that is not. */
  predicate HitsEntry(lay: Layout, addr: Word) {
    var offset := addr % PAGE_SIZE;
    exists t | 0 <= t < |lay.tables| ::
      lay.tables[t] == addr / PAGE_SIZE && (offset % 4 == 0 || t * PAGES_IN_PT + offset / 4 < |lay.data|)
  }

  /** Nothing lies at the address, neither for the program that runs nor for the kernel. */
  predicate Unmapped(c: Config, live: seq<Layout>, addr: Word) {
    addr / PAGE_SIZE >= c.ramPages && !Own(live, addr) && FrameBuffer(c, addr / PAGE_SIZE).Fault?
  }

  /** A store by the kernel at the address does damage: the byte is the kernel's own, or what it says in a live page
      table counts, or nothing is mapped there, so that exception_handler writes into the code that stores. */
  ghost predicate Damages(c: Config, live: seq<Layout>, addr: Word) {
    if addr / PAGE_SIZE < c.ramPages then
      Reserved(c, addr / PAGE_SIZE) || exists lay :: lay in live && HitsEntry(lay, addr)
    else Unmapped(c, live, addr)
  }

  /** Memory after an access of the kernel, from the instruction at eip, to an address that the page directory dir does
      not map: the processor raises a page fault and exception_handler overwrites the instruction. */
  function Faulted(phys: Phys, dir: seq<Pte>, eip: Word): Phys
    requires |dir| == PAGETABLES_IN_PD
  {
    var code := WalkPage(phys, dir, eip / PAGE_SIZE);
    if code.Hit? && code.frame in phys then StoreByte(phys, code.frame, eip % PAGE_SIZE, IRET_OPCODE) else phys
  }

  /** Memory after a load that the kernel makes while dir is loaded, from the instruction at eip. */
  function KernelLoaded(phys: Phys, dir: seq<Pte>, addr: Word, eip: Word): Phys
    requires |dir| == PAGETABLES_IN_PD
  {
    if WalkPage(phys, dir, addr / PAGE_SIZE).Hit? then phys else Faulted(phys, dir, eip)
  }

  /** Memory after a store that the kernel makes. The user bit does not count. */
  function KernelStored(phys: Phys, dir: seq<Pte>, addr: Word, b: Byte, eip: Word): Phys
    requires |dir| == PAGETABLES_IN_PD
  {
    var walk := WalkPage(phys, dir, addr / PAGE_SIZE);
    if !walk.Hit? then Faulted(phys, dir, eip)
    else if walk.frame in phys then StoreByte(phys, walk.frame, addr % PAGE_SIZE, b) else phys
  }

  /** A store at an address that a program handed to the kernel is the KernelStore step, unless it does damage. */
  lemma KernelStoreAnywhere(c: Config, tasks: seq<TaskSlot>, gdt: seq<GdtEntry>, live: seq<Layout>, phys: Phys,
                            free: set<nat>, addr: Word, b: Byte, eip: Word)
    requires ConfigOk(c) && Good(c, tasks, gdt, live, phys, free) && live != []
    requires !Damages(c, live, addr)
    ensures |live| <= |tasks| && |tasks[|live| - 1].pagedir| == PAGETABLES_IN_PD
    ensures WalkPage(phys, tasks[|live| - 1].pagedir, addr / PAGE_SIZE).Hit?
    ensures var phys' := KernelStored(phys, tasks[|live| - 1].pagedir, addr, b, eip);
            && Good(c, tasks, gdt, live, phys', free)
            && System(Stack(tasks, live, phys'), free)
               == Apply(System(Stack(tasks, live, phys), free), KernelStore(addr, b), false)
  {
    hide Good, ConfigOk, Memory, WalkPage, StoreByte, Reserved, HitsEntry, Apply;
    WalkAnywhere(c, tasks, gdt, live, phys, free, addr);
    if addr / PAGE_SIZE < c.ramPages {
      StorePhysical(c, tasks, gdt, live, phys, free, addr, b);
    } else if Own(live, addr) {
      StoreOwned(c, tasks, gdt, live, phys, free, addr, b);
    } else {
      NothingStored(c, tasks, gdt, live, phys, free, addr, b);
    }
  }

  lemma StoreOwned(c: Config, tasks: seq<TaskSlot>, gdt: seq<GdtEntry>, live: seq<Layout>, phys: Phys,
                   free: set<nat>, addr: Word, b: Byte)
    requires Good(c, tasks, gdt, live, phys, free) && Own(live, addr)
    ensures |live| <= |tasks| && |tasks[|live| - 1].pagedir| == PAGETABLES_IN_PD
    ensures var walk := WalkPage(phys, tasks[|live| - 1].pagedir, addr / PAGE_SIZE);
            && walk.Hit?
            && var phys' := StoreByte(phys, walk.frame, addr % PAGE_SIZE, b);
            && Good(c, tasks, gdt, live, phys', free)
            && System(Stack(tasks, live, phys'), free)
               == Apply(System(Stack(tasks, live, phys), free), KernelStore(addr, b), false)
  {
    hide Good, Memory, WalkPage, StoreByte;
    TopSlot(c, tasks, gdt, live, phys, free);
    StoreThrough(c, tasks, gdt, live, phys, free, addr, b);
  }

  lemma NothingStored(c: Config, tasks: seq<TaskSlot>, gdt: seq<GdtEntry>, live: seq<Layout>, phys: Phys,
                      free: set<nat>, addr: Word, b: Byte)
    requires ConfigOk(c) && Good(c, tasks, gdt, live, phys, free) && live != []
    requires !Own(live, addr) && addr / PAGE_SIZE >= c.ramPages
    ensures |live| <= |tasks|
    ensures var s := System(Stack(tasks, live, phys), free); Apply(s, KernelStore(addr, b), false) == s
  {
    hide Good, ConfigOk, Poked, Memory;
    NobodysFrame(c, tasks, gdt, live, phys, free, addr / PAGE_SIZE);
    TopSlot(c, tasks, gdt, live, phys, free);
    NobodyPoked(System(Stack(tasks, live, phys), free), addr / PAGE_SIZE, addr % PAGE_SIZE, b);
  }

  lemma NobodysFrame(c: Config, tasks: seq<TaskSlot>, gdt: seq<GdtEntry>, live: seq<Layout>, phys: Phys, free: set<nat>,
                     frame: nat)
    requires ConfigOk(c) && Good(c, tasks, gdt, live, phys, free) && frame >= c.ramPages
    ensures forall lay | lay in live :: frame !in lay.data
  {
    forall i | 0 <= i < |live|
      ensures frame !in live[i].data
    {
      LiveFrames(c, tasks, gdt, live, phys, free, i);
      assert frame !in FramesOf(live[i]);
    }
  }

  lemma NobodyPoked(s: System, frame: nat, offset: nat, b: Byte)
    requires forall i | 0 <= i < |s.stack| :: frame !in s.stack[i].lay.data
    ensures StoreFrame(s, frame, offset, b) == s
  {
    forall i | 0 <= i < |s.stack|
      ensures Poked(s.stack[i], frame, offset, b) == s.stack[i]
    {
      SparedTask(s.stack[i], frame, offset, b);
    }
  }

  lemma StorePhysical(c: Config, tasks: seq<TaskSlot>, gdt: seq<GdtEntry>, live: seq<Layout>, phys: Phys,
                      free: set<nat>, addr: Word, b: Byte)
    requires ConfigOk(c) && Good(c, tasks, gdt, live, phys, free) && live != []
    requires !Damages(c, live, addr) && addr / PAGE_SIZE < c.ramPages
    ensures |live| <= |tasks|
    ensures var phys' := StoreByte(phys, addr / PAGE_SIZE, addr % PAGE_SIZE, b);
            && Good(c, tasks, gdt, live, phys', free)
            && System(Stack(tasks, live, phys'), free)
               == Apply(System(Stack(tasks, live, phys), free), KernelStore(addr, b), false)
  {
    FramePoked(c, tasks, gdt, live, phys, free, addr, b);
    TopSlot(c, tasks, gdt, live, phys, free);
    NotInTop(System(Stack(tasks, live, phys), free), c.ramPages, addr);
    hide Good, ConfigOk, Damages, StoreByte, Stack, StoreFrame, Reserved;
  }

  lemma NotInTop(s: System, ramPages: nat, addr: Word)
    requires s.stack != [] && addr / PAGE_SIZE < ramPages <= TASK_FIRST_PAGE
    ensures !InTop(s, addr)
  {
  }

  /** A byte stored into a frame where it does not count for the kernel or a page table. */
  lemma FramePoked(c: Config, tasks: seq<TaskSlot>, gdt: seq<GdtEntry>, live: seq<Layout>, phys: Phys, free: set<nat>,
                   addr: Word, b: Byte)
    requires Good(c, tasks, gdt, live, phys, free)
    requires addr / PAGE_SIZE in phys && !Reserved(c, addr / PAGE_SIZE)
    requires forall lay | lay in live :: !HitsEntry(lay, addr)
    ensures |live| <= |tasks|
    ensures var frame, offset := addr / PAGE_SIZE, addr % PAGE_SIZE;
            var phys' := StoreByte(phys, frame, offset, b);
            && Good(c, tasks, gdt, live, phys', free)
            && System(Stack(tasks, live, phys'), free)
               == StoreFrame(System(Stack(tasks, live, phys), free), frame, offset, b)
  {
    var phys' := StoreByte(phys, addr / PAGE_SIZE, addr % PAGE_SIZE, b);
    var stack, stack' := Stack(tasks, live, phys), Stack(tasks, live, phys');
    hide SlotOk, HitsEntry, PokedFrame;
    forall i | 0 <= i < |live|
      ensures SlotOk(c, tasks[i], gdt[FIRST_TASK_INDEX + i], i, live[i], phys')
      ensures stack'[i] == Poked(stack[i], addr / PAGE_SIZE, addr % PAGE_SIZE, b)
    {
      assert live[i] in live;
      SlotPoked(c, tasks[i], gdt[FIRST_TASK_INDEX + i], i, live[i], phys, addr, b);
    }
  }

  /** Such a byte shows in a slot's task where the frame is one of its pages, and nowhere else. */
  lemma SlotPoked(c: Config, slot: TaskSlot, entry: GdtEntry, i: nat, lay: Layout, phys: Phys, addr: Word, b: Byte)
    requires SlotOk(c, slot, entry, i, lay, phys) && !HitsEntry(lay, addr)
    ensures var frame, offset := addr / PAGE_SIZE, addr % PAGE_SIZE;
            var phys' := StoreByte(phys, frame, offset, b);
            && SlotOk(c, slot, entry, i, lay, phys')
            && Task(Memory(phys', lay.data), slot.tss.esp, lay)
               == Poked(Task(Memory(phys, lay.data), slot.tss.esp, lay), frame, offset, b)
  {
    hide Maps, StoreByte, TssSegment, SlotAddr, Bits, StartTss, LayoutOk, HitsEntry, Memory, Poked;
    MapsPoked(phys, slot.pagedir, slot.pageTables, c.templ, lay, addr, b);
    MemoryPoked(phys, slot.pagedir, slot.pageTables, c.templ, lay, slot.tss.esp, addr / PAGE_SIZE, addr % PAGE_SIZE, b);
  }

  lemma MapsPoked(phys: Phys, dir: seq<Pte>, ptrs: seq<nat>, templ: seq<Pte>, lay: Layout, addr: Word, b: Byte)
    requires Maps(phys, dir, ptrs, templ, lay.data, lay.tables) && !HitsEntry(lay, addr)
    ensures Maps(StoreByte(phys, addr / PAGE_SIZE, addr % PAGE_SIZE, b), dir, ptrs, templ, lay.data, lay.tables)
  {
    hide Maps, StoreByte, HitsEntry;
    var offset := addr % PAGE_SIZE;
    if t :| 0 <= t < |lay.tables| && lay.tables[t] == addr / PAGE_SIZE {
      SparedEntry(lay, addr, t);
      StoreKeepsTable(phys, dir, ptrs, templ, lay.data, lay.tables, t, offset, b);
    } else {
      StoreKeepsMaps(phys, dir, ptrs, templ, lay.data, lay.tables, addr / PAGE_SIZE, offset, b);
    }
  }

  lemma SparedEntry(lay: Layout, addr: Word, t: nat)
    requires !HitsEntry(lay, addr) && t < |lay.tables| && lay.tables[t] == addr / PAGE_SIZE
    ensures addr % PAGE_SIZE % 4 != 0 && t * PAGES_IN_PT + addr % PAGE_SIZE / 4 >= |lay.data|
  {
  }

  lemma MemoryPoked(phys: Phys, dir: seq<Pte>, ptrs: seq<nat>, templ: seq<Pte>, lay: Layout, esp: nat,
                    frame: nat, offset: nat, b: Byte)
    requires Maps(phys, dir, ptrs, templ, lay.data, lay.tables) && offset < PAGE_SIZE
    ensures Task(Memory(StoreByte(phys, frame, offset, b), lay.data), esp, lay)
            == Poked(Task(Memory(phys, lay.data), esp, lay), frame, offset, b)
  {
    var phys' := StoreByte(phys, frame, offset, b);
    if frame in lay.data {
      StoreInPage(phys, frame, offset, b);
    }
    assert forall f: nat | f != frame :: PageBytes(phys', f) == PageBytes(phys, f);
    hide Maps, StoreByte, PageBytes;
    assert Memory(phys', lay.data) == Poked(Task(Memory(phys, lay.data), esp, lay), frame, offset, b).memory;
  }

  /** The invariant of the kernel holds after such a store. */
  ghost predicate Survives(c: Config, tasks: seq<TaskSlot>, gdt: seq<GdtEntry>, live: seq<Layout>, phys: Phys,
                           free: set<nat>, dir: seq<Pte>, addr: Word, b: Byte, eip: Word)
    requires |dir| == PAGETABLES_IN_PD
  {
    Good(c, tasks, gdt, live, KernelStored(phys, dir, addr, b, eip), free)
  }

  /** The condition is exact: at any other address some value breaks the invariant. */
  lemma DamageExactly(c: Config, tasks: seq<TaskSlot>, gdt: seq<GdtEntry>, live: seq<Layout>, phys: Phys,
                      free: set<nat>, addr: Word, eip: Word)
    requires ConfigOk(c) && Good(c, tasks, gdt, live, phys, free) && live != [] && KernelCode(c, eip)
    ensures |live| <= |tasks| && |tasks[|live| - 1].pagedir| == PAGETABLES_IN_PD
    ensures var dir := tasks[|live| - 1].pagedir;
            (forall b: Byte :: Survives(c, tasks, gdt, live, phys, free, dir, addr, b, eip))
            <==> !Damages(c, live, addr)
  {
    hide Good, Damages, ConfigOk, KernelStored, KernelCode;
    TopSlot(c, tasks, gdt, live, phys, free);
    var dir := tasks[|live| - 1].pagedir;
    if Damages(c, live, addr) {
      var b := DamagingValue(c, tasks, gdt, live, phys, free, addr, eip);
      assert !Survives(c, tasks, gdt, live, phys, free, dir, addr, b, eip);
    } else {
      forall b: Byte
        ensures Survives(c, tasks, gdt, live, phys, free, dir, addr, b, eip)
      {
        KernelStoreAnywhere(c, tasks, gdt, live, phys, free, addr, b, eip);
      }
    }
  }

  lemma DamagingValue(c: Config, tasks: seq<TaskSlot>, gdt: seq<GdtEntry>, live: seq<Layout>, phys: Phys,
                      free: set<nat>, addr: Word, eip: Word)
    returns (b: Byte)
    requires ConfigOk(c) && Good(c, tasks, gdt, live, phys, free) && live != [] && KernelCode(c, eip)
    requires Damages(c, live, addr)
    ensures |live| <= |tasks| && |tasks[|live| - 1].pagedir| == PAGETABLES_IN_PD
    ensures !Good(c, tasks, gdt, live, KernelStored(phys, tasks[|live| - 1].pagedir, addr, b, eip), free)
  {
    var page, offset := addr / PAGE_SIZE, addr % PAGE_SIZE;
    WalkAnywhere(c, tasks, gdt, live, phys, free, addr);
    hide WalkPage, StoreByte, ConfigOk, Resident, HitsEntry;
    if page >= c.ramPages {
      b := 0;
      CodeLost(c, tasks, gdt, live, phys, free, eip);
    } else if Reserved(c, page) {
      b := FrameChanges(phys, page, offset);
      KernelFrameLost(c, phys, page, offset, b);
    } else {
      var lay :| lay in live && HitsEntry(lay, addr);
      b := EntryLost(c, tasks, gdt, live, phys, lay, addr);
    }
  }

  lemma KernelFrameLost(c: Config, phys: Phys, frame: nat, offset: nat, b: Byte)
    requires Untouched(c, phys) && frame in phys && Reserved(c, frame) && offset < PAGE_SIZE
    requires PokedFrame(phys, frame, offset, b) != phys[frame]
    ensures !Untouched(c, StoreByte(phys, frame, offset, b))
  {
    hide PokedFrame;
    assert phys[frame] == c.boot[frame];
  }

  /** The page fault costs the kernel the instruction that stores. */
  lemma CodeLost(c: Config, tasks: seq<TaskSlot>, gdt: seq<GdtEntry>, live: seq<Layout>, phys: Phys, free: set<nat>,
                 eip: Word)
    requires ConfigOk(c) && Good(c, tasks, gdt, live, phys, free) && live != [] && KernelCode(c, eip)
    ensures |live| <= |tasks| && |tasks[|live| - 1].pagedir| == PAGETABLES_IN_PD
    ensures var code := WalkPage(phys, tasks[|live| - 1].pagedir, eip / PAGE_SIZE);
            code.Hit? && code.frame in phys && !Untouched(c, StoreByte(phys, code.frame, eip % PAGE_SIZE, IRET_OPCODE))
  {
    WalkAnywhere(c, tasks, gdt, live, phys, free, eip);
    var frame := eip / PAGE_SIZE;
    assert frame < c.ramPages && phys[frame] == c.boot[frame];
    hide WalkPage, Good, ConfigOk;
    StoreInPage(phys, frame, eip % PAGE_SIZE, IRET_OPCODE);
    assert PokedFrame(phys, frame, eip % PAGE_SIZE, IRET_OPCODE).bytes[eip % PAGE_SIZE] == IRET_OPCODE;
  }

  /** A load by the kernel changes nothing if the address is mapped, and costs it an instruction if not. */
  lemma LoadExactly(c: Config, tasks: seq<TaskSlot>, gdt: seq<GdtEntry>, live: seq<Layout>, phys: Phys, free: set<nat>,
                    addr: Word, eip: Word)
    requires ConfigOk(c) && Good(c, tasks, gdt, live, phys, free) && live != [] && KernelCode(c, eip)
    ensures |live| <= |tasks| && |tasks[|live| - 1].pagedir| == PAGETABLES_IN_PD
    ensures var phys' := KernelLoaded(phys, tasks[|live| - 1].pagedir, addr, eip);
            if Unmapped(c, live, addr) then !Good(c, tasks, gdt, live, phys', free) else phys' == phys
  {
    WalkAnywhere(c, tasks, gdt, live, phys, free, addr);
    hide WalkPage, StoreByte, ConfigOk, Resident, KernelCode;
    CodeLost(c, tasks, gdt, live, phys, free, eip);
  }

  /** Some value for that byte makes the page table say something else. */
  lemma EntryLost(c: Config, tasks: seq<TaskSlot>, gdt: seq<GdtEntry>, live: seq<Layout>, phys: Phys, lay: Layout,
                  addr: Word)
    returns (b: Byte)
    requires Resident(c, tasks, gdt, live, phys) && lay in live && HitsEntry(lay, addr)
    ensures !Resident(c, tasks, gdt, live, StoreByte(phys, addr / PAGE_SIZE, addr % PAGE_SIZE, b))
  {
    var i :| 0 <= i < |live| && live[i] == lay;
    var offset := addr % PAGE_SIZE;
    var t :| 0 <= t < |lay.tables| && lay.tables[t] == addr / PAGE_SIZE
             && (offset % 4 == 0 || t * PAGES_IN_PT + offset / 4 < |lay.data|);
    assert SlotOk(c, tasks[i], gdt[FIRST_TASK_INDEX + i], i, lay, phys);
    b := TableLost(phys, tasks[i].pagedir, tasks[i].pageTables, c.templ, lay, t, offset);
    hide Maps, StoreByte;
    assert !SlotOk(c, tasks[i], gdt[FIRST_TASK_INDEX + i], i, lay, StoreByte(phys, addr / PAGE_SIZE, offset, b));
  }

  lemma TableLost(phys: Phys, dir: seq<Pte>, ptrs: seq<nat>, templ: seq<Pte>, lay: Layout, t: nat, offset: nat)
    returns (b: Byte)
    requires Maps(phys, dir, ptrs, templ, lay.data, lay.tables) && t < |lay.tables| && offset < PAGE_SIZE
    requires offset % 4 == 0 || t * PAGES_IN_PT + offset / 4 < |lay.data|
    ensures !Maps(StoreByte(phys, lay.tables[t], offset, b), dir, ptrs, templ, lay.data, lay.tables)
  {
    var frame := lay.tables[t];
    assert IsTable(phys[frame], lay.data, t);
    b := EntryChanges(phys[frame].entries[offset / 4], offset % 4);
    hide PokedEntry, PageBytes;
    var poked := StoreByte(phys, frame, offset, b)[frame];
    assert poked.entries[offset / 4] == PokedEntry(phys[frame].entries[offset / 4], offset % 4, b);
    assert !IsTable(poked, lay.data, t);
  }

  lemma TopSlot(c: Config, tasks: seq<TaskSlot>, gdt: seq<GdtEntry>, live: seq<Layout>, phys: Phys, free: set<nat>)
    requires Good(c, tasks, gdt, live, phys, free) && live != []
    ensures var n := |live| - 1;
            && |tasks| == MAX_TASK_COUNT && n < |tasks|
            && Maps(phys, tasks[n].pagedir, tasks[n].pageTables, c.templ, live[n].data, live[n].tables)
            && |tasks[n].pagedir| == 1024 && LayoutOk(live[n])
            && |Stack(tasks, live, phys)[n].memory| == |live[n].data| * PAGE_SIZE
  {
    TopMapped(c, tasks, gdt, live, phys);
  }

  lemma InsideWalk(c: Config, tasks: seq<TaskSlot>, gdt: seq<GdtEntry>, live: seq<Layout>, phys: Phys, addr: nat)
    requires Resident(c, tasks, gdt, live, phys) && live != []
    requires TASK_VIRT_ADDR <= addr < TASK_VIRT_ADDR + |live[|live| - 1].data| * PAGE_SIZE
    ensures |tasks[|live| - 1].pagedir| == 1024 && addr / PAGE_SIZE < 0x10_0000
    ensures var walk := WalkPage(phys, tasks[|live| - 1].pagedir, addr / PAGE_SIZE);
            walk.Hit? && walk.user && walk.frame in phys
  {
    var n := |live| - 1;
    var p := (addr - TASK_VIRT_ADDR) / PAGE_SIZE;
    assert addr / PAGE_SIZE == TASK_FIRST_PAGE + p;
    TopMapped(c, tasks, gdt, live, phys);
    WalkTask(phys, tasks[n].pagedir, tasks[n].pageTables, c.templ, live[n].data, live[n].tables, p);
  }

  lemma ResidentTop(c: Config, tasks: seq<TaskSlot>, gdt: seq<GdtEntry>, live: seq<Layout>, phys: Phys, phys': Phys)
    requires Resident(c, tasks, gdt, live, phys) && live != []
    requires forall i | 0 <= i < |live| - 1 :: SlotOk(c, tasks[i], gdt[FIRST_TASK_INDEX + i], i, live[i], phys')
    requires var n := |live| - 1; SlotOk(c, tasks[n], gdt[FIRST_TASK_INDEX + n], n, live[n], phys')
    ensures Resident(c, tasks, gdt, live, phys')
  {
  }

  lemma TopMapped(c: Config, tasks: seq<TaskSlot>, gdt: seq<GdtEntry>, live: seq<Layout>, phys: Phys)
    requires Resident(c, tasks, gdt, live, phys) && live != []
    ensures var n := |live| - 1;
            && SlotOk(c, tasks[n], gdt[FIRST_TASK_INDEX + n], n, live[n], phys)
            && (forall p | 0 <= p < |live[n].data| :: live[n].data[p] in phys && IsPage(phys[live[n].data[p]]))
            && Disjoint(live[n].data, live[n].tables)
  {
  }

  lemma StackSplit(tasks: seq<TaskSlot>, live: seq<Layout>, phys: Phys)
    requires 0 < |live| <= |tasks|
    ensures var n := |live| - 1;
            Stack(tasks, live, phys)
            == Stack(tasks, live[..n], phys) + [Task(Memory(phys, live[n].data), tasks[n].tss.esp, live[n])]
  {
  }

  /** The top slot goes; its pages, and possibly its page tables, return to the pool. */
  lemma PopSlot(c: Config, tasks: seq<TaskSlot>, gdt: seq<GdtEntry>, live: seq<Layout>, phys: Phys, free: set<nat>,
                phys': Phys, freed: set<nat>)
    requires Good(c, tasks, gdt, live, phys, free) && live != []
    requires SameOutside(phys, phys', Elems(live[|live| - 1].tables))
    requires freed <= FramesOf(live[|live| - 1])
    ensures var n := |live| - 1;
            var tasks' := tasks[n := tasks[n].(inUse := false)];
            && Good(c, tasks', gdt, live[..n], phys', free + freed)
            && Stack(tasks', live[..n], phys') == Stack(tasks, live, phys)[..n]
  {
    hide SlotOk, Untouched;
    var n := |live| - 1;
    Bystanders(c, tasks, gdt, live, phys, free, phys', Elems(live[n].tables), n);
    ResidentPop(c, tasks, gdt, live, phys, phys');
    SeparatedPop(live, free, freed);
    assert Stack(tasks[n := tasks[n].(inUse := false)], live[..n], phys') == Stack(tasks, live[..n], phys');
  }

  lemma ResidentPop(c: Config, tasks: seq<TaskSlot>, gdt: seq<GdtEntry>, live: seq<Layout>, phys: Phys, phys': Phys)
    requires Resident(c, tasks, gdt, live, phys) && live != []
    requires forall i | 0 <= i < |live| - 1 :: SlotOk(c, tasks[i], gdt[FIRST_TASK_INDEX + i], i, live[i], phys')
    ensures var n := |live| - 1; Resident(c, tasks[n := tasks[n].(inUse := false)], gdt, live[..n], phys')
  {
    var n := |live| - 1;
    var tasks' := tasks[n := tasks[n].(inUse := false)];
    forall i | 0 <= i < n
      ensures SlotOk(c, tasks'[i], gdt[FIRST_TASK_INDEX + i], i, live[..n][i], phys')
    {
      assert SlotOk(c, tasks[i], gdt[FIRST_TASK_INDEX + i], i, live[i], phys');
    }
  }
}
