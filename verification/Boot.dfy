/** Machines on which the kernel boots: for every size of RAM below the tasks' address range there is a memory, as
    paging_init is to leave it, that meets all assumptions of this model. */
module Boot {
  import opened CTypes
  import opened Paging
  import opened ArgumentBlock
  import opened TaskSpec
  import opened KernelState
  import opened KernelTasks

  const FRAME_BUFFER_PDE := 1023

  function KernelPte(frame: nat): Pte {
    Pte(true, false, frame)
  }

  /** Pages for the kernel: one with code and a module, 168 for the task table, 3 for the initial TSS, one to end in. */
  const KERNEL_PAGES := 173

  /** RAM of the given number of pages: page tables for it from frame 1 on, then the page table of the frame buffer and
      the kernel's own pages; all further frames are the allocator's. */
  function CodeFrame(pages: nat): nat {
    TableCount(pages) + 2
  }

  function BootFrame(pages: nat, f: nat): Frame {
    if f == 0 || f >= CodeFrame(pages) then Data(Zeros(PAGE_SIZE))
    else if f <= TableCount(pages) then Table(RamTable(pages, f - 1))
    else Table(BufferTable())
  }

  function BufferTable(): seq<Pte> {
    seq(PAGES_IN_PT, e requires 0 <= e < PAGES_IN_PT => KernelPte(FRAME_BUFFER_PDE * PAGES_IN_PT + e))
  }

  function RamTable(pages: nat, t: nat): seq<Pte> {
    seq(PAGES_IN_PT, e requires 0 <= e < PAGES_IN_PT =>
      if t * PAGES_IN_PT + e < pages then KernelPte(t * PAGES_IN_PT + e) else ABSENT)
  }

  function Directory(pages: nat): (r: seq<Pte>)
    ensures |r| == PAGETABLES_IN_PD
  {
    seq(PAGETABLES_IN_PD, j requires 0 <= j < PAGETABLES_IN_PD =>
      if j < TableCount(pages) then KernelPte(j + 1)
      else if j == FRAME_BUFFER_PDE then KernelPte(TableCount(pages) + 1) else ABSENT)
  }

  function Between(low: nat, high: nat): (r: set<nat>)
    ensures forall f: nat :: f in r <==> low <= f < high
    ensures low <= high ==> |r| == high - low
  {
    if high <= low then {} else Between(low, high - 1) + {high - 1}
  }

  function PoolOf(pages: nat): set<nat> {
    Between(CodeFrame(pages) + KERNEL_PAGES, pages)
  }

  function Machine(pages: nat, name: seq<Byte>, size: nat): Config {
    Config(pages, PoolOf(pages), map f: nat | f < pages :: BootFrame(pages, f), Directory(pages), Directory(pages),
           [Module(name, CodeFrame(pages) * PAGE_SIZE, size)], (CodeFrame(pages) + 1) * PAGE_SIZE,
           (CodeFrame(pages) + 169) * PAGE_SIZE)
  }

  /** The assumptions can be met, with any RAM from 177 pages up to 1 GB, with a frame buffer, with code of the kernel,
      and with a program to start. */
  lemma Boots(pages: nat, name: seq<Byte>, size: nat)
    requires CodeFrame(pages) + KERNEL_PAGES < pages <= TASK_FIRST_PAGE && IsText(name) && size < PAGE_SIZE
    ensures var c := Machine(pages, name, size);
            && ConfigOk(c) && Loadable(c, name) && KernelCode(c, CodeFrame(pages) * PAGE_SIZE)
            && FrameBuffer(c, FRAME_BUFFER_PDE * PAGES_IN_PT).Hit?
  {
    hide WalkPage, Directory, ConfigOk, BootFrame, Reserved;
    var c := Machine(pages, name, size);
    MeetsAssumptions(c, pages);
    CodePage(c, pages);
    BeyondRam(pages, c.boot);
    assert IsFirst(c.modules, name, 0);
  }

  lemma MeetsAssumptions(c: Config, pages: nat)
    requires CodeFrame(pages) + KERNEL_PAGES < pages <= TASK_FIRST_PAGE
    requires c.ramPages == pages && c.pool == PoolOf(pages)
    requires c.boot == map f: nat | f < pages :: BootFrame(pages, f)
    requires c.kernelDir == c.templ == Directory(pages)
    requires forall m | m in c.modules ::
               IsText(m.cmdline) && m.addr == CodeFrame(pages) * PAGE_SIZE && m.size < PAGE_SIZE
    requires c.tasksAddr == (CodeFrame(pages) + 1) * PAGE_SIZE && c.initialTss == (CodeFrame(pages) + 169) * PAGE_SIZE
    ensures ConfigOk(c)
  {
    hide WalkPage, InKernelRam, Directory, Reserved, BootFrame, CodeFrame, IsText;
    RamMapped(pages, c.boot);
    TablesReserved(c, pages);
    BeyondRam(pages, c.boot);
    forall m | m in c.modules
      ensures InKernelRam(c, m.addr, m.size)
    {
      KernelInside(c, pages, 0, m.size);
    }
    KernelInside(c, pages, 1, 8 * TASK_SIZE);
    KernelInside(c, pages, 169, 8296);
  }

  lemma InTable(pages: nat, boot: Phys, page: nat)
    requires CodeFrame(pages) + KERNEL_PAGES < pages <= TASK_FIRST_PAGE
    requires boot == map f: nat | f < pages :: BootFrame(pages, f)
    requires page / PAGES_IN_PT < TableCount(pages)
    ensures page / PAGES_IN_PT < TASK_FIRST_PDE
    ensures WalkPage(boot, Directory(pages), page) == if page < pages then Hit(page, false) else Fault
  {
    var j, e := page / PAGES_IN_PT, page % PAGES_IN_PT;
    assert Directory(pages)[j] == KernelPte(j + 1);
    assert j + 1 in boot && boot[j + 1] == BootFrame(pages, j + 1) == Table(RamTable(pages, j));
    assert j * PAGES_IN_PT + e == page;
    assert RamTable(pages, j)[e] == if page < pages then KernelPte(page) else ABSENT;
  }

  lemma RamMapped(pages: nat, boot: Phys)
    requires CodeFrame(pages) + KERNEL_PAGES < pages <= TASK_FIRST_PAGE
    requires boot == map f: nat | f < pages :: BootFrame(pages, f)
    ensures TableCount(pages) <= TASK_FIRST_PDE
    ensures forall page: nat | page < pages :: WalkPage(boot, Directory(pages), page) == Hit(page, false)
  {
    hide WalkPage, BootFrame, Directory;
    forall page: nat | page < pages
      ensures WalkPage(boot, Directory(pages), page) == Hit(page, false)
    {
      InTable(pages, boot, page);
    }
  }

  lemma BeyondRam(pages: nat, boot: Phys)
    requires CodeFrame(pages) + KERNEL_PAGES < pages <= TASK_FIRST_PAGE
    requires boot == map f: nat | f < pages :: BootFrame(pages, f)
    ensures forall page: nat | pages <= page < 0x10_0000 ::
              WalkPage(boot, Directory(pages), page)
              == if page / PAGES_IN_PT == FRAME_BUFFER_PDE then Hit(page, false) else Fault
  {
    forall page: nat | pages <= page < 0x10_0000
      ensures WalkPage(boot, Directory(pages), page)
              == if page / PAGES_IN_PT == FRAME_BUFFER_PDE then Hit(page, false) else Fault
    {
      var j := page / PAGES_IN_PT;
      if j < TableCount(pages) {
        InTable(pages, boot, page);
      } else if j == FRAME_BUFFER_PDE {
        var f := TableCount(pages) + 1;
        assert Directory(pages)[j] == KernelPte(f);
        assert f in boot && boot[f] == BootFrame(pages, f) == Table(BufferTable());
        assert BufferTable()[page % PAGES_IN_PT] == KernelPte(page);
      } else {
        assert Directory(pages)[j] == ABSENT;
      }
    }
  }

  lemma TablesReserved(c: Config, pages: nat)
    requires c.pool == PoolOf(pages) && TableCount(pages) <= TASK_FIRST_PDE
    ensures forall j | 0 <= j < PAGETABLES_IN_PD ::
              Directory(pages)[j].present ==> Reserved(c, Directory(pages)[j].frame)
    ensures forall j | TASK_FIRST_PDE <= j < TASK_FIRST_PDE + MAX_TASK_TABLES :: !Directory(pages)[j].present
  {
  }

  lemma CodePage(c: Config, pages: nat)
    requires CodeFrame(pages) + KERNEL_PAGES < pages && c.pool == PoolOf(pages)
    requires c.boot == map f: nat | f < pages :: BootFrame(pages, f)
    ensures var f := CodeFrame(pages);
            f in c.boot && Reserved(c, f) && IsPage(c.boot[f]) && c.boot[f].bytes[0] == 0
  {
  }

  lemma KernelInside(c: Config, pages: nat, first: nat, size: nat)
    requires CodeFrame(pages) + KERNEL_PAGES < pages && c.ramPages == pages && c.pool == PoolOf(pages)
    requires first * PAGE_SIZE + size < KERNEL_PAGES * PAGE_SIZE
    ensures InKernelRam(c, (CodeFrame(pages) + first) * PAGE_SIZE, size)
  {
    var addr := (CodeFrame(pages) + first) * PAGE_SIZE;
    assert addr / PAGE_SIZE == CodeFrame(pages) + first;
    assert (addr + size) / PAGE_SIZE < CodeFrame(pages) + KERNEL_PAGES;
  }

  /** With 4 MB of RAM or more the first program is started, whatever its arguments. */
  method FirstProgram(pages: nat, name: seq<Byte>, size: nat, argv: seq<seq<Byte>>)
    returns (k: Kernel, ghost e: Event)
    requires 1024 <= pages <= TASK_FIRST_PAGE && IsText(name) && size < PAGE_SIZE && IsArgv(argv)
    ensures fresh(k) && k.Valid() && k.config == Machine(pages, name, size)
    ensures IsExecOf(k.config, name, argv, e)
    ensures Enabled(System([], k.config.pool), e) && k.Abs() == Apply(System([], k.config.pool), e, false)
  {
    hide Good, ConfigOk, EnoughFrames, Loadable, IsExecOf, Enabled, Apply, BootFrame, Directory, PoolOf, CodeFrame;
    var c := Machine(pages, name, size);
    RoomForCode(pages);
    Boots(pages, name, size);
    Affords(pages, name, size, argv);
    k := new Kernel(c);
    var inside, ok;
    inside, ok, e := k.Enter(name, argv);
  }

  lemma RoomForCode(pages: nat)
    requires 1024 <= pages
    ensures CodeFrame(pages) + KERNEL_PAGES < pages
  {
  }

  lemma Affords(pages: nat, name: seq<Byte>, size: nat, argv: seq<seq<Byte>>)
    requires 1024 <= pages && size < PAGE_SIZE && IsArgv(argv)
    ensures EnoughFrames(Machine(pages, name, size), name, argv, PoolOf(pages))
  {
    hide Strings;
    BlockBounds(argv);
    RoomForCode(pages);
    var need := size + 2 * |Block(argv)| + STACK_SIZE;
    assert PageCount(need) <= 515 && TableCount(PageCount(need)) <= 1;
  }
}
