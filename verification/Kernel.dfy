/** The task subsystem (kernel/task/task.c) with the memory reference model behind it. Every method is proved against
    the abstract system of module TaskSpec. */
module KernelTasks {
  import opened CTypes
  import opened StringOrder
  import opened Paging
  import opened Gdt
  import opened ArgumentBlock
  import opened TaskSpec
  import opened KernelState
  import Staging
  import TaskLayout
  import StringCode = Strings

  /** Index of the first module with the given command line, or -1. */
  method ModByName(modules: seq<Module>, name: seq<Byte>) returns (index: int)
    requires IsText(name) && forall m | m in modules :: IsText(m.cmdline)
    ensures -1 <= index < |modules|
    ensures index == -1 ==> forall i | 0 <= i < |modules| :: modules[i].cmdline != name
    ensures index >= 0 ==> modules[index].cmdline == name && forall i | 0 <= i < index :: modules[i].cmdline != name
  {
    for i := 0 to |modules|
      invariant forall j | 0 <= j < i :: modules[j].cmdline != name
    {
      CompareZero(name, modules[i].cmdline);
      if Compare(name, modules[i].cmdline) == 0 {
        return i;
      }
    }
    return -1;
  }

  /** A module of that name exists and module_addr_by_name does not return NULL for it. */
  ghost predicate Loadable(c: Config, name: seq<Byte>) {
    exists i | 0 <= i < |c.modules| :: IsFirst(c.modules, name, i) && c.modules[i].addr != 0
  }

  /** The start event of that module with those arguments. */
  ghost predicate IsExecOf(c: Config, name: seq<Byte>, argv: seq<seq<Byte>>, e: Event) {
    && e.Exec? && e.argv == argv
    && exists i :: IsFirst(c.modules, name, i) && e.image == ImageOf(c, c.modules[i])
  }

  ghost predicate IsFirst(modules: seq<Module>, name: seq<Byte>, i: int) {
    && 0 <= i < |modules|
    && modules[i].cmdline == name
    && forall j | 0 <= j < i :: modules[j].cmdline != name
  }

  lemma FirstIsUnique(c: Config, name: seq<Byte>, index: int)
    requires -1 <= index < |c.modules|
    requires if index == -1 then forall j | 0 <= j < |c.modules| :: c.modules[j].cmdline != name
             else IsFirst(c.modules, name, index)
    ensures Loadable(c, name) <==> index != -1 && c.modules[index].addr != 0
  {
  }

  lemma EnoughIff(c: Config, name: seq<Byte>, argv: seq<seq<Byte>>, free: set<nat>, index: int)
    requires IsArgv(argv) && -1 <= index < |c.modules|
    requires if index == -1 then forall j | 0 <= j < |c.modules| :: c.modules[j].cmdline != name
             else IsFirst(c.modules, name, index)
    ensures EnoughFrames(c, name, argv, free)
            <==> index == -1 || |free| >= FramesFor(c.modules[index].size + 2 * |Block(argv)| + STACK_SIZE)
  {
    forall i | IsFirst(c.modules, name, i)
      ensures i == index
    {
    }
  }

  lemma ModuleSize(c: Config, m: Module)
    requires ConfigOk(c) && m in c.modules
    ensures m.size <= MAX_IMAGE
  {
    assert InKernelRam(c, m.addr, m.size);
  }

  lemma ModuleNames(c: Config)
    requires ConfigOk(c)
    ensures forall m | m in c.modules :: IsText(m.cmdline)
  {
  }

  /** What loading achieves in two steps, allocation and filling, is one Exec step. */
  lemma LoadsAsExec(s: System, image: seq<Byte>, argv: seq<seq<Byte>>, lay: Layout, blank: Task)
    requires |s.stack| < MAX_TASK_COUNT && |image| <= MAX_IMAGE && IsArgv(argv)
    requires |lay.data| == PagesFor(image, argv) && LayoutOk(lay) && FramesOf(lay) <= s.free
    requires blank == Task(Zeros(|lay.data| * PAGE_SIZE), TASK_VIRT_ADDR + |image| + |Block(argv)| + STACK_SIZE, lay)
    ensures |image| + |Block(Staged(argv))| <= |blank.memory|
    ensures var e := Exec(image, argv, lay);
            && Enabled(s, e)
            && Apply(s, e, false)
               == System(s.stack + [blank.(memory := Filled(image + Block(Staged(argv)), |blank.memory|))],
                         s.free - FramesOf(lay))
  {
    BlockBounds(argv);
  }

  ghost predicate EnoughFrames(c: Config, name: seq<Byte>, argv: seq<seq<Byte>>, free: set<nat>)
    requires IsArgv(argv)
  {
    forall i | IsFirst(c.modules, name, i) :: |free| >= FramesFor(c.modules[i].size + 2 * |Block(argv)| + STACK_SIZE)
  }

  lemma OneStep(s: System, e: Event)
    requires Enabled(s, e)
    ensures Legal(s, [e], false) && Final(s, [e], false) == Apply(s, e, false)
  {
    assert [e][1..] == [];
  }

  lemma EmptyRun(s: System)
    ensures Legal(s, [], false) && Final(s, [], false) == s
  {
  }

  /** Frames that paging_alloc takes for size bytes. */
  function FramesFor(size: nat): nat {
    PageCount(size) + TableCount(PageCount(size))
  }

  lemma FramesCounted(size: nat)
    ensures exists pages: nat, tables: nat :: HoldsJust(size, pages, tables) && FramesFor(size) == pages + tables
  {
    Counted(size);
    hide PageCount, TableCount, HoldsJust;
  }

  /** Contents followed by zeros. */
  function Filled(contents: seq<Byte>, size: nat): (r: seq<Byte>)
    requires |contents| <= size
    ensures |r| == size
  {
    contents + Zeros(size - |contents|)
  }

  lemma FillOne(contents: seq<Byte>, size: nat, b: Byte)
    requires |contents| < size
    ensures Filled(contents, size)[|contents| := b] == Filled(contents + [b], size)
  {
  }

  /** The rows of the staging array hold these strings. */
  ghost predicate InRows(tmp: seq<Byte>, texts: seq<seq<Byte>>) {
    forall i | 0 <= i < |texts| :: HoldsText(tmp, ROW_SIZE * i) && TextAt(tmp, ROW_SIZE * i) == texts[i]
  }

  lemma InRow(tmp: seq<Byte>, texts: seq<seq<Byte>>, i: nat)
    requires InRows(tmp, texts) && i < |texts|
    ensures HoldsText(tmp, ROW_SIZE * i) && TextAt(tmp, ROW_SIZE * i) == texts[i]
    ensures ROW_SIZE * i + |texts[i]| < |tmp|
    ensures tmp[ROW_SIZE * i..ROW_SIZE * i + |texts[i]| + 1] == texts[i] + [0]
  {
    hide TextAt;
    StringCode.TextBytes(tmp, ROW_SIZE * i);
  }

  lemma NoStrings(head: seq<Byte>, texts: seq<seq<Byte>>)
    ensures Strings(texts[..0]) == [] && head + Strings(texts[..0]) == head
  {
  }

  lemma OneMoreString(head: seq<Byte>, texts: seq<seq<Byte>>, i: nat)
    requires i < |texts|
    ensures head + Strings(texts[..i]) + (texts[i] + [0]) == head + Strings(texts[..i + 1])
    ensures |Strings(texts[..i + 1])| == |Strings(texts[..i])| + |texts[i]| + 1 <= |Strings(texts)|
  {
    StringsNext(texts, i);
    hide Strings;
  }

  /** What the outside world makes happen: the running program asks for another one, ends, executes at eip an
      instruction that stores a byte, raises some other exception at eip, or has a system call store a byte at an
      address it passes (numbers 2, 3 and 5 store several) or load one from there (numbers 0 and 7 read strings, 7
      before it starts the program). */
  datatype Request =
    | Start(name: seq<Byte>, argv: seq<seq<Byte>>)
    | Finish
    | Write(eip: Word, addr: Word, value: Byte)
    | Trap(eip: Word)
    | CallWrites(addr: Word, value: Byte)
    | CallReads(addr: Word)

  predicate IsRequest(r: Request) {
    r.Start? ==> IsText(r.name) && AreTexts(r.argv)
  }

  /** The program can fetch an instruction from there, or store there. */
  predicate CanUse(c: Config, s: System, addr: Word)
    requires s.stack != []
  {
    UserReaches(c, InTop(s, addr), addr)
  }

  /** The step that a store instruction is: the store or, if the instruction cannot be fetched or its address not be
      used, the byte that exception_handler writes over the instruction. */
  function WriteStep(c: Config, s: System, eip: Word, addr: Word, value: Byte): Event
    requires s.stack != []
  {
    if CanUse(c, s, eip) && CanUse(c, s, addr) then Store(addr, value) else KernelStore(eip, IRET_OPCODE)
  }

  /** The steps that answer a request in a given state. */
  ghost predicate Answer(c: Config, s: System, r: Request, steps: seq<Event>) {
    match r
    case Start(name, argv) =>
      if Loadable(c, name) && |s.stack| < MAX_TASK_COUNT then |steps| == 1 && IsExecOf(c, name, argv, steps[0])
      else steps == []
    case Finish => steps == if s.stack != [] then [Return] else []
    case Write(eip, addr, value) => steps == if s.stack != [] then [WriteStep(c, s, eip, addr, value)] else []
    case Trap(eip) => steps == if s.stack != [] then [KernelStore(eip, IRET_OPCODE)] else []
    case CallWrites(addr, value) => steps == if s.stack != [] then [KernelStore(addr, value)] else []
    case CallReads(_) => steps == []
  }

  lemma Requested(r: Request)
    requires IsRequest(r) && r.Start?
    ensures IsText(r.name) && AreTexts(r.argv)
  {
  }

  /** Tasks and pool before and after a start that succeeds: one task more, with the image of the first module of that
      name at 1 GB, the staged arguments behind it, its stack above, and just the frames that this takes, all of which
      were free. */
  ghost predicate StartedOne(c: Config, before: seq<Task>, free: set<nat>, after: seq<Task>, free': set<nat>,
                             name: seq<Byte>, argv: seq<seq<Byte>>)
  {
    var n := |before|;
    && |after| == n + 1 && after[..n] == before && IsArgv(argv)
    && var t := after[n];
       && FramesOf(t.lay) <= free && free' == free - FramesOf(t.lay)
       && exists i :: IsFirst(c.modules, name, i) && Runs(ImageOf(c, c.modules[i]), argv, t)
  }

  ghost predicate Runs(image: seq<Byte>, argv: seq<seq<Byte>>, t: Task)
    requires IsArgv(argv)
  {
    && image <= t.memory && |image| + 4 <= |t.memory| && ReadArgv(t.memory, |image|) == Staged(argv)
    && t.esp == 0x4000_0000 + |image| + |Block(argv)| + 0x20_0000
    && HoldsJust(|image| + 2 * |Block(argv)| + 0x20_0000, |t.lay.data|, |t.lay.tables|)
    && |t.memory| == |t.lay.data| * 4096
  }

  lemma StartsOne(c: Config, s: System, e: Event, name: seq<Byte>, argv: seq<seq<Byte>>)
    requires IsExecOf(c, name, argv, e) && Enabled(s, e)
    ensures var s' := Apply(s, e, false); StartedOne(c, s.stack, s.free, s'.stack, s'.free, name, argv)
  {
    ExecEffect(s, e);
    hide ImageOf, IsFirst, ReadArgv, Staged, Block, PageCount, TableCount, AreTexts, HoldsJust, IsArgv;
    StartRuns(e.image, argv, e.lay);
    var i :| IsFirst(c.modules, name, i) && e.image == ImageOf(c, c.modules[i]);
    assert Runs(ImageOf(c, c.modules[i]), argv, Apply(s, e, false).stack[|s.stack|]);
  }

  lemma StartRuns(image: seq<Byte>, argv: seq<seq<Byte>>, lay: Layout)
    requires IsArgv(argv) && |lay.data| == PagesFor(image, argv) && LayoutOk(lay)
    ensures Runs(image, argv, NewTask(image, argv, lay))
  {
    AddressSpace(image, argv, lay);
    BlockBounds(argv);
    Counted(RequestedSize(image, argv));
    hide ReadArgv, Staged, Block, AreTexts, InitialMemory, HoldsJust;
    assert NewTask(image, argv, lay).memory[..|image|] == image;
  }

  /** Tasks and pool before and after a return: the last task is gone and its pages, but not its page tables, are
      free. */
  ghost predicate ReturnedOne(before: seq<Task>, free: set<nat>, after: seq<Task>, free': set<nat>) {
    && before != [] && after == before[..|before| - 1]
    && free' == free + Elems(before[|before| - 1].lay.data)
  }

  /** A store instruction at eip: if the program can fetch it and use the address, the byte there changes if it is the
      program's own, and no RAM if not; otherwise the handler's byte goes to eip. */
  ghost predicate WrittenOne(c: Config, s: System, s': System, eip: Word, addr: Word, value: Byte)
    requires s.stack != []
  {
    && s'.free == s.free
    && if CanUse(c, s, eip) && CanUse(c, s, addr) then
         if 0 <= addr - 0x4000_0000 < |s.stack[|s.stack| - 1].memory| then ByteStored(s.stack, s'.stack, addr, value)
         else s' == s
       else ByteStored(s.stack, s'.stack, eip, 0xCF)
  }

  lemma WritesOne(c: Config, s: System, eip: Word, addr: Word, value: Byte)
    requires s.stack != []
    ensures WrittenOne(c, s, Apply(s, WriteStep(c, s, eip, addr, value), false), eip, addr, value)
  {
    hide CanUse, ByteStored, Apply;
    StoreEffect(s, addr, value, false);
    KernelStoreEffect(s, eip, IRET_OPCODE, false);
  }

  /** How many programs are running after the requests, from d on: one more after every start that there is a module and
      a slot for, one less after every end of a program. */
  ghost function Depth(c: Config, requests: seq<Request>, d: nat): nat {
    if requests == [] then d
    else
      var before := Depth(c, requests[..|requests| - 1], d);
      match requests[|requests| - 1]
      case Start(name, _) => if Loadable(c, name) && before < 8 then before + 1 else before
      case Finish => if before > 0 then before - 1 else 0
      case _ => before
  }

  lemma DepthNext(c: Config, requests: seq<Request>, done: nat, d: nat)
    requires done < |requests|
    ensures var before := Depth(c, requests[..done], d);
            Depth(c, requests[..done + 1], d)
            == match requests[done]
               case Start(name, _) => if Loadable(c, name) && before < 8 then before + 1 else before
               case Finish => if before > 0 then before - 1 else 0
               case _ => before
  {
    assert requests[..done + 1][..done] == requests[..done];
    hide Loadable;
  }

  lemma NothingAnswered(c: Config, s: System, run: seq<Event>)
    ensures Answers(c, s, [], run) && Legal(s, run, false) ==> Final(s, run, false) == s
  {
  }

  lemma BothAnswered(c: Config, s: System, name: seq<Byte>, argv: seq<seq<Byte>>, run: seq<Event>)
    requires s.stack == [] && Loadable(c, name) && IsArgv(argv)
    requires Legal(s, run, false) && Answers(c, s, [Start(name, argv), Finish], run)
    ensures |run| == 2 && run[0].Exec? && Final(s, run, false) == System([], s.free - Elems(run[0].lay.tables))
    ensures Elems(run[0].lay.tables) <= s.free
    ensures exists i :: IsFirst(c.modules, name, i) && run[0].image == ImageOf(c, c.modules[i])
    ensures FourMegabytes(|run[0].image| + 2 * |Block(argv)| + 0x20_0000, |Elems(run[0].lay.tables)|)
  {
    hide Loadable, IsExecOf, Enabled, Apply;
    var both := [Start(name, argv), Finish];
    var n: nat :| n <= |run| && Legal(s, run[..n], false) && Answers(c, s, both[..1], run[..n])
                  && Answer(c, Final(s, run[..n], false), both[1], run[n..]);
    assert both[..1] == [Start(name, argv)];
    OneAnswered(c, s, name, argv, run[..n]);
    var e := run[..n][0];
    assert run[..n] == [e];
    OneStep(s, e) by {
      FirstEnabled(s, [e]);
    }
    ExecTop(c, s, name, argv, e);
    assert run == [e, Return];
    hide Legal, Final, Answers, FourMegabytes, IsFirst;
    EndsEmpty(s, e);
  }

  lemma FirstEnabled(s: System, run: seq<Event>)
    requires run != [] && Legal(s, run, false)
    ensures Enabled(s, run[0])
  {
  }

  lemma OneAnswered(c: Config, s: System, name: seq<Byte>, argv: seq<seq<Byte>>, run: seq<Event>)
    requires s.stack == [] && Loadable(c, name)
    requires Answers(c, s, [Start(name, argv)], run)
    ensures |run| == 1 && IsExecOf(c, name, argv, run[0])
  {
    hide Loadable, IsExecOf;
    var one := [Start(name, argv)];
    var n: nat :| n <= |run| && Legal(s, run[..n], false) && Answers(c, s, one[..0], run[..n])
                  && Answer(c, Final(s, run[..n], false), one[0], run[n..]);
    assert n == 0 && run[n..] == run;
  }

  lemma ExecTop(c: Config, s: System, name: seq<Byte>, argv: seq<seq<Byte>>, e: Event)
    requires IsExecOf(c, name, argv, e) && Enabled(s, e)
    ensures e.Exec? && Apply(s, e, false).stack != [] && IsArgv(argv)
    ensures exists i :: IsFirst(c.modules, name, i) && e.image == ImageOf(c, c.modules[i])
    ensures FourMegabytes(|e.image| + 2 * |Block(argv)| + 0x20_0000, |Elems(e.lay.tables)|)
  {
    hide ImageOf, Block, PageCount, TableCount, HoldsJust, FourMegabytes;
    Counted(RequestedSize(e.image, argv));
    InFourMegabytes(RequestedSize(e.image, argv), |e.lay.data|, |e.lay.tables|);
    DistinctCount(e.lay.tables);
  }

  /** The least number of stretches of 4 MB, what one page table maps, that hold size bytes. */
  predicate FourMegabytes(size: nat, tables: nat) {
    size <= tables * 0x40_0000 < size + 0x40_0000
  }

  lemma InFourMegabytes(size: nat, pages: nat, tables: nat)
    requires HoldsJust(size, pages, tables)
    ensures FourMegabytes(size, tables)
  {
  }

  lemma EndsEmpty(s: System, e: Event)
    requires s.stack == [] && e.Exec? && Enabled(s, e) && Legal(s, [e, Return], false)
    ensures Final(s, [e, Return], false) == System([], s.free - Elems(e.lay.tables)) && Elems(e.lay.tables) <= s.free
  {
    var s1 := Apply(s, e, false);
    ExecEffect(s, e);
    ReturnEffect(s1);
    assert [e, Return][1..] == [Return] && [Return][1..] == [];
    Emptied(s.free, e.lay);
  }

  lemma Emptied(free: set<nat>, lay: Layout)
    requires LayoutOk(lay) && FramesOf(lay) <= free
    ensures free - FramesOf(lay) + Elems(lay.data) == free - Elems(lay.tables)
  {
  }

  /** A run answers the requests one after the other. */
  ghost predicate Answers(c: Config, s0: System, requests: seq<Request>, run: seq<Event>)
    decreases |requests|
  {
    if requests == [] then run == []
    else
      var m := |requests| - 1;
      exists n: nat | n <= |run| ::
        && Legal(s0, run[..n], false)
        && Answers(c, s0, requests[..m], run[..n])
        && Answer(c, Final(s0, run[..n], false), requests[m], run[n..])
  }

  lemma AnswersNext(c: Config, s0: System, requests: seq<Request>, done: nat, run: seq<Event>, steps: seq<Event>)
    requires done < |requests| && Legal(s0, run, false) && Answers(c, s0, requests[..done], run)
    requires Answer(c, Final(s0, run, false), requests[done], steps)
    ensures Answers(c, s0, requests[..done + 1], run + steps)
  {
    hide Answer, Legal, Final;
    var all := run + steps;
    assert requests[..done + 1][..done] == requests[..done];
    assert all[..|run|] == run && all[|run|..] == steps;
    assert Legal(s0, all[..|run|], false);
  }

  class Kernel {
    const config: Config
    var tasks: seq<TaskSlot>
    var gdt: seq<GdtEntry>
    var taskId: int
    var free: set<nat>
    var phys: Phys

    /** The slots of the tasks that were switched to and have not returned, in order. */
    var nesting: seq<nat>

    /** The slot whose page directory is loaded, -1 for the one of the initial TSS. */
    var active: int
    ghost var live: seq<Layout>

    /** The frames passed to frame_free so far, in order. */
    ghost var frees: seq<nat>

    ghost predicate Loaded()
      reads this
      ensures Loaded() ==> |live| <= |tasks| == MAX_TASK_COUNT
    {
      ConfigOk(config) && Good(config, tasks, gdt, live, phys, free) && taskId == 1 + |live|
    }

    ghost predicate Valid()
      reads this
    {
      && Loaded()
      && |nesting| == |live| && active == |nesting| - 1
      && forall d | 0 <= d < |nesting| :: nesting[d] == d
    }

    ghost function Tasks(): seq<Task>
      requires |live| <= |tasks|
      reads this
    {
      Stack(tasks, live, phys)
    }

    ghost function Abs(): System
      requires |live| <= |tasks|
      reads this
    {
      System(Tasks(), free)
    }

    /** gdt_init and tasks_init, on the memory that the boot code prepared. */
    constructor (c: Config)
      requires ConfigOk(c)
      ensures Valid() && config == c && Abs() == System([], c.pool)
    {
      config := c;
      tasks := seq(MAX_TASK_COUNT, _ => ZeroSlot());
      var table := GdtInit();
      gdt := table[KERNEL_TSS_INDEX := TssSegment(Bits(c.initialTss), DPL_KERNEL)];
      taskId := 1;
      free := c.pool;
      phys := c.boot;
      nesting := [];
      active := -1;
      live, frees := [], [];
    }

    // ----- frame.h and paging.h: the reference model behind their contracts ------------------------

    /** Any free frame, zeroed; -1 if there is none. */
    method FrameAlloc() returns (f: int)
      modifies `free, `phys
      ensures old(free) == {} ==> f == -1 && unchanged(this)
      ensures old(free) != {} ==>
        f in old(free) && free == old(free) - {f} && phys == old(phys)[f := Data(Zeros(PAGE_SIZE))]
    {
      if free == {} {
        return -1;
      }
      f :| f in free;
      free := free - {f};
      phys := phys[f := Data(Zeros(PAGE_SIZE))];
    }

    /** frame_free does not check whether the frame was allocated, so freeing twice is freeing once. */
    method FrameFree(addr: nat)
      modifies `free, `frees
      ensures free == old(free) + {addr / PAGE_SIZE}
      ensures frees == old(frees) + [addr / PAGE_SIZE]
    {
      free := free + {addr / PAGE_SIZE};
      frees := frees + [addr / PAGE_SIZE];
    }

    /** A zeroed frame becomes the task's next page table; its address is recorded behind those of the others. */
    method NewTable(pagedir: seq<Pte>, pageTables: seq<nat>, n: nat, ghost lay: Layout, ghost phys0: Phys,
                    ghost free0: set<nat>)
      returns (dir: seq<Pte>, ptrs: seq<nat>, ghost lay': Layout)
      requires Building(phys0, free0, phys, free, pagedir, pageTables, config.templ, lay)
      requires |lay.data| == |lay.tables| * PAGES_IN_PT && n == |lay.tables| < MAX_TASK_TABLES
      requires free != {} && 0 !in free
      modifies `free, `phys
      ensures Building(phys0, free0, phys, free, dir, ptrs, config.templ, lay')
      ensures lay'.data == lay.data && |lay'.tables| == |lay.tables| + 1 && |free| == old(|free|) - 1
      ensures free <= old(free)
    {
      var f := FrameAlloc();
      phys := phys[f := Table(NoEntries())];
      assert phys == old(phys)[f := Table(NoEntries())];
      BuildTable(phys0, free0, old(phys), old(free), pagedir, pageTables, config.templ, lay, f);
      dir := pagedir[TASK_FIRST_PDE + n := UserPte(f)];
      ptrs := pageTables[n := f * PAGE_SIZE];
      lay' := lay.(tables := lay.tables + [f]);
    }

    /** A zeroed frame becomes page p of the task. */
    method NewPage(dir: seq<Pte>, ptrs: seq<nat>, p: nat, ghost lay: Layout, ghost phys0: Phys, ghost free0: set<nat>)
      returns (ghost lay': Layout)
      requires Building(phys0, free0, phys, free, dir, ptrs, config.templ, lay)
      requires p == |lay.data| < |lay.tables| * PAGES_IN_PT && free != {}
      modifies `free, `phys
      ensures Building(phys0, free0, phys, free, dir, ptrs, config.templ, lay')
      ensures lay'.tables == lay.tables && |lay'.data| == p + 1 && |free| == old(|free|) - 1 && free <= old(free)
    {
      var g := FrameAlloc();
      BuildPage(phys0, free0, old(phys), old(free), dir, ptrs, config.templ, lay, g);
      var t := dir[TASK_FIRST_PDE + p / PAGES_IN_PT].frame;
      assert t == lay.tables[p / PAGES_IN_PT];
      phys := phys[t := Table(phys[t].entries[p % PAGES_IN_PT := UserPte(g)])];
      assert phys == old(phys)[g := Data(Zeros(PAGE_SIZE))]
                     [t := Table(old(phys)[t].entries[p % PAGES_IN_PT := UserPte(g)])];
      lay' := lay.(data := lay.data + [g]);
    }

    /** Page p of the task, and a page table for it where the directory has none. */
    method MapPage(pagedir: seq<Pte>, pageTables: seq<nat>, p: nat, ghost lay: Layout, ghost phys0: Phys,
                   ghost free0: set<nat>)
      returns (dir: seq<Pte>, ptrs: seq<nat>, added: nat, ghost lay': Layout)
      requires Building(phys0, free0, phys, free, pagedir, pageTables, config.templ, lay)
      requires p == |lay.data| < MAX_TASK_TABLES * PAGES_IN_PT && |lay.tables| == TableCount(p)
      requires forall j | TASK_FIRST_PDE <= j < TASK_FIRST_PDE + MAX_TASK_TABLES :: !config.templ[j].present
      requires |free| >= 1 + TableCount(p + 1) - TableCount(p) && 0 !in free
      modifies `free, `phys
      ensures Building(phys0, free0, phys, free, dir, ptrs, config.templ, lay')
      ensures |lay'.data| == p + 1 && |lay'.tables| == TableCount(p + 1)
      ensures added == 1 + TableCount(p + 1) - TableCount(p) && |free| == old(|free|) - added && free <= old(free)
    {
      dir, ptrs, added, lay' := pagedir, pageTables, 1, lay;
      NextTable(phys, dir, ptrs, config.templ, lay.data, lay.tables);
      if !dir[TASK_FIRST_PDE + p / PAGES_IN_PT].present {
        dir, ptrs, lay' := NewTable(dir, ptrs, p / PAGES_IN_PT, lay', phys0, free0);
        added := 2;
      }
      lay' := NewPage(dir, ptrs, p, lay', phys0, free0);
    }

    method PagingAlloc(pagedir: seq<Pte>, pageTables: seq<nat>, size: nat)
      returns (dir: seq<Pte>, ptrs: seq<nat>, count: nat, ghost lay: Layout)
      requires pagedir == config.templ && pageTables == NullPointers()
      requires |pagedir| == 1024
      requires forall j | TASK_FIRST_PDE <= j < TASK_FIRST_PDE + MAX_TASK_TABLES :: !pagedir[j].present
      requires 0 < size && TableCount(PageCount(size)) <= MAX_TASK_TABLES
      requires |free| >= PageCount(size) + TableCount(PageCount(size)) && 0 !in free && free <= phys.Keys
      modifies `free, `phys
      ensures Building(old(phys), old(free), phys, free, dir, ptrs, config.templ, lay)
      ensures LayoutOk(lay) && |lay.data| == PageCount(size) && count == |lay.data| + |lay.tables|
      ensures HoldsJust(size, |lay.data|, |lay.tables|)
      ensures Memory(phys, lay.data) == Zeros(|lay.data| * PAGE_SIZE)
    {
      dir, ptrs, lay := pagedir, pageTables, Layout([], []);
      var pages := PageCount(size);
      count := 0;
      MapsNothing(phys, config.templ);
      for p := 0 to pages
        invariant |lay.data| == p && |lay.tables| == TableCount(p) && count == p + |lay.tables|
        invariant Building(old(phys), old(free), phys, free, dir, ptrs, config.templ, lay)
        invariant |free| == old(|free|) - count && free <= old(free)
      {
        var added;
        dir, ptrs, added, lay := MapPage(dir, ptrs, p, lay, old(phys), old(free));
        count := count + added;
      }
      ZeroMemory(phys, lay.data);
      Counted(size);
    }

    // ----- task.c --------------------------------------------------------------------------------------

    /** The first slot that is not in use; -1 if there is none. */
    method FindFreeSlot() returns (slot: int, entry: nat)
      requires Loaded()
      ensures slot == if |live| == MAX_TASK_COUNT then -1 else |live|
      ensures -1 <= slot < MAX_TASK_COUNT
      ensures slot != -1 ==> entry == FIRST_TASK_INDEX + slot
    {
      slot, entry := -1, FIRST_TASK_INDEX;
      for i := 0 to MAX_TASK_COUNT
        invariant i <= |live| && slot == -1 && entry == FIRST_TASK_INDEX + i
      {
        if !tasks[i].inUse {
          slot := i;
          break;
        }
        entry := entry + 1;
      }
    }

    /** task_create: a free slot, its GDT entry and context, and zeroed memory for image, arguments and stack. */
    method TaskCreate(imageSize: nat, argsSize: nat) returns (slot: int, ghost lay: Layout)
      requires Loaded() && imageSize <= MAX_IMAGE && argsSize <= MAX_BLOCK
      requires |live| < MAX_TASK_COUNT ==> |free| >= FramesFor(imageSize + 2 * argsSize + STACK_SIZE)
      modifies `tasks, `gdt, `taskId, `free, `phys, `live
      ensures Loaded()
      ensures slot == -1 <==> old(|live|) == MAX_TASK_COUNT
      ensures slot == -1 ==> unchanged(this)
      ensures slot != -1 ==>
        && slot == old(|live|) && live == old(live) + [lay]
        && |lay.data| == PageCount(imageSize + 2 * argsSize + STACK_SIZE)
        && HoldsJust(imageSize + 2 * argsSize + 0x20_0000, |lay.data|, |lay.tables|)
        && Published(config, tasks[slot], gdt[6 + slot], slot)
        && LayoutOk(lay) && FramesOf(lay) <= old(free) && free == old(free) - FramesOf(lay)
        && Tasks() == old(Tasks()) + [Task(Zeros(|lay.data| * PAGE_SIZE),
                                           TASK_VIRT_ADDR + imageSize + argsSize + STACK_SIZE, lay)]
    {
      hide Good, Building, TssSegment, SlotAddr, Bits, ConfigOk, TableCount, Stack, FramesOf, LayoutOk;
      lay := Layout([], []);
      var entry;
      slot, entry := FindFreeSlot();
      if slot == -1 {
        return;
      }
      PoolFacts(config, tasks, gdt, live, phys, free);
      RequestBound(imageSize, argsSize);
      var totalMemSize := STACK_SIZE + argsSize + imageSize;
      var t := ZeroSlot();
      taskId := taskId + 1;
      t := t.(inUse := true, id := slot);
      var descriptor := TssSegment(Bits(SlotAddr(config, slot) + TSS_OFFSET), DPL_KERNEL);
      t := t.(selector := Selector(entry), virtAddr := TASK_VIRT_ADDR, addrSpaceSize := imageSize + argsSize);
      t := t.(pagedir := config.templ, tss := StartTss(config, slot, TASK_VIRT_ADDR + totalMemSize));
      var dir, ptrs, count;
      var size := t.addrSpaceSize + STACK_SIZE + argsSize;
      assert size == imageSize + 2 * argsSize + STACK_SIZE;
      dir, ptrs, count, lay := PagingAlloc(t.pagedir, t.pageTables, size);
      t := t.(pagedir := dir, pageTables := ptrs);
      assert t == FreshSlot(config, slot, imageSize + argsSize, t.tss.esp, dir, ptrs);
      CreateSlot(config, tasks, gdt, live, old(phys), old(free), phys, free, dir, ptrs, lay, t.addrSpaceSize,
                 t.tss.esp);
      tasks := tasks[slot := t];
      gdt := gdt[entry := descriptor];
      live := live + [lay];
      CreatedSlot(slot, t);
    }

    lemma CreatedSlot(i: nat, t: TaskSlot)
      requires Loaded() && i < |live| && i < |tasks| && tasks[i] == t && 6 + i < |gdt|
      ensures Published(config, t, gdt[6 + i], i)
    {
      hide Published;
      SlotPublished(config, tasks[i], gdt[6 + i], i, live[i], phys);
    }

    // ----- memory accesses through a task's page directory ---------------------------------------------

    /** Kernel load from RAM while the page directory of a live task is loaded. */
    method Peek(addr: nat) returns (b: Byte)
      requires Loaded() && 0 <= active < |live| && addr < config.ramPages * PAGE_SIZE
      ensures b == PageBytes(phys, addr / PAGE_SIZE)[addr % PAGE_SIZE]
    {
      IdentityWalk(config, tasks, gdt, live, phys, active, addr / PAGE_SIZE);
      var walk := WalkPage(phys, tasks[active].pagedir, addr / PAGE_SIZE);
      b := PageBytes(phys, walk.frame)[addr % PAGE_SIZE];
    }

    /** Store into the address range of the top task while its page directory is loaded. */
    method Poke(addr: nat, b: Byte)
      requires Loaded() && 0 <= active == |live| - 1
      requires TASK_VIRT_ADDR <= addr < TASK_VIRT_ADDR + |live[active].data| * PAGE_SIZE
      modifies `phys
      ensures Loaded()
      ensures var t := old(Tasks())[active];
              Tasks() == old(Tasks())[active := t.(memory := t.memory[addr - TASK_VIRT_ADDR := b])]
    {
      StoreThrough(config, tasks, gdt, live, phys, free, addr, b);
      var walk := WalkPage(phys, tasks[active].pagedir, addr / PAGE_SIZE);
      phys := StoreByte(phys, walk.frame, addr % PAGE_SIZE, b);
    }

    /** Store of the byte that follows contents in the top task's otherwise zeroed memory. */
    method PokeNext(addr: nat, b: Byte, ghost callers: seq<Task>, ghost t: Task, ghost contents: seq<Byte>)
      requires Loaded() && active == |callers| == |live| - 1
      requires |contents| < |t.memory| && addr == TASK_VIRT_ADDR + |contents|
      requires Tasks() == callers + [t.(memory := Filled(contents, |t.memory|))]
      modifies `phys
      ensures Loaded() && Tasks() == callers + [t.(memory := Filled(contents + [b], |t.memory|))]
    {
      hide Good, ConfigOk;
      assert Tasks()[active] == t.(memory := Filled(contents, |t.memory|));
      assert |Tasks()[active].memory| == |live[active].data| * PAGE_SIZE;
      FillOne(contents, |t.memory|, b);
      Poke(addr, b);
    }

    /** memcpy of the module's bytes, found in RAM through the task's page directory, to the start of the task. */
    method CopyImage(m: Module, ghost callers: seq<Task>, ghost t: Task)
      requires Loaded() && active == |callers| == |live| - 1 && m in config.modules && m.size <= |t.memory|
      requires Tasks() == callers + [t] && t.memory == Zeros(|t.memory|)
      modifies `phys
      ensures Loaded() && Tasks() == callers + [t.(memory := Filled(ImageOf(config, m), |t.memory|))]
    {
      hide Good, ConfigOk, Stack, PageBytes;
      ghost var image := ImageOf(config, m);
      assert Filled(image[..0], |t.memory|) == t.memory;
      for k := 0 to m.size
        invariant Loaded() && Tasks() == callers + [t.(memory := Filled(image[..k], |t.memory|))]
      {
        KernelBytes(m, k);
        var b := Peek(m.addr + k);
        PokeNext(TASK_VIRT_ADDR + k, b, callers, t, image[..k]);
        assert image[..k] + [b] == image[..k + 1];
      }
      assert image[..m.size] == image;
    }

    lemma KernelBytes(m: Module, k: nat)
      requires Loaded() && m in config.modules && k < m.size
      ensures m.addr + k < config.ramPages * PAGE_SIZE
      ensures PageBytes(phys, (m.addr + k) / PAGE_SIZE)[(m.addr + k) % PAGE_SIZE] == ImageOf(config, m)[k]
    {
      ImageByte(config, phys, m, k);
    }

    /** memcpy of bytes from the kernel's stack to the place behind what is already loaded. */
    method CopyBytes(offset: nat, bytes: seq<Byte>, ghost callers: seq<Task>, ghost t: Task, ghost contents: seq<Byte>)
      requires Loaded() && active == |callers| == |live| - 1
      requires offset == |contents| && |contents| + |bytes| <= |t.memory|
      requires Tasks() == callers + [t.(memory := Filled(contents, |t.memory|))]
      modifies `phys
      ensures Loaded() && Tasks() == callers + [t.(memory := Filled(contents + bytes, |t.memory|))]
    {
      hide Good, ConfigOk;
      assert contents + bytes[..0] == contents;
      for k := 0 to |bytes|
        invariant Loaded() && Tasks() == callers + [t.(memory := Filled(contents + bytes[..k], |t.memory|))]
      {
        PokeNext(TASK_VIRT_ADDR + offset + k, bytes[k], callers, t, contents + bytes[..k]);
        assert contents + bytes[..k] + [bytes[k]] == contents + bytes[..k + 1];
      }
      assert bytes[..|bytes|] == bytes;
    }

    /** The argument block, behind the image: argc, then the strings that are found in the rows of the staging array. */
    method CopyArguments(offset: nat, argc: nat, tmp: array<Byte>,
                         ghost callers: seq<Task>, ghost t: Task, ghost image: seq<Byte>, ghost texts: seq<seq<Byte>>)
      requires Loaded() && active == |callers| == |live| - 1 && argc == |texts| <= MAX_ARGS
      requires InRows(tmp[..], texts)
      requires offset == |image| && |image| + |Block(texts)| <= |t.memory|
      requires Tasks() == callers + [t.(memory := Filled(image, |t.memory|))]
      modifies `phys
      ensures Loaded() && Tasks() == callers + [t.(memory := Filled(image + Block(texts), |t.memory|))]
    {
      hide Good, ConfigOk, InRows, TextAt, HoldsText, Stack, Filled, Strings;
      var count := WordBytes(argc);
      CopyBytes(offset, count, callers, t, image);
      var next := 0;
      NoStrings(image + count, texts);
      for i := 0 to argc
        invariant next == |Strings(texts[..i])|
        invariant Loaded() && next <= |Strings(texts)|
        invariant Tasks() == callers + [t.(memory := Filled(image + count + Strings(texts[..i]), |t.memory|))]
      {
        OneMoreString(image + count, texts, i);
        InRow(tmp[..], texts, i);
        var len := StringCode.Strlen(tmp, ROW_SIZE * i);
        var bytes := tmp[..][ROW_SIZE * i..ROW_SIZE * i + len + 1];
        CopyBytes(offset + 4 + next, bytes, callers, t, image + count + Strings(texts[..i]));
        next := next + len + 1;
      }
      assert texts[..argc] == texts;
      assert image + count + Strings(texts) == image + Block(texts);
    }

    /** task_load once the module is known: a new task, its image and its arguments. */
    method LoadModule(m: Module, argv: seq<seq<Byte>>, argsSize: nat, tmp: array<Byte>)
      returns (slot: int, ghost e: Event)
      requires Loaded() && m in config.modules && IsArgv(argv) && argsSize == |Block(argv)| <= MAX_BLOCK
      requires InRows(tmp[..], Staged(argv))
      requires |live| < MAX_TASK_COUNT ==> |free| >= FramesFor(m.size + 2 * argsSize + STACK_SIZE)
      modifies `tasks, `gdt, `taskId, `free, `phys, `live, `active
      ensures Loaded() && active == old(active)
      ensures slot == -1 <==> old(|live|) == MAX_TASK_COUNT
      ensures slot == -1 ==> unchanged(this)
      ensures slot != -1 ==> slot == old(|live|) && |live| == slot + 1
      ensures slot != -1 ==> e.Exec? && e.image == ImageOf(config, m) && e.argv == argv
      ensures slot != -1 ==> Enabled(old(Abs()), e) && Abs() == Apply(old(Abs()), e, false)
    {
      hide Good, InRows;
      e := Return;
      ModuleSize(config, m);
      ghost var callers := Tasks();
      ghost var lay;
      slot, lay := TaskCreate(m.size, argsSize);
      if slot == -1 {
        return;
      }
      hide ConfigOk;
      ghost var image, blank := ImageOf(config, m), Tasks()[slot];
      LoadsAsExec(System(callers, old(free)), image, argv, lay, blank);
      var current := active;
      active := slot;
      CopyImage(m, callers, blank);
      CopyArguments(m.size, |argv|, tmp, callers, blank, image, Staged(argv));
      active := current;
      e := Exec(image, argv, lay);
    }

    /** task_load: nothing happens unless the module exists and a slot is free. It gives up (not inside) where the code
        would write behind its staging array. */
    method TaskLoad(name: seq<Byte>, argv: seq<seq<Byte>>) returns (inside: bool, slot: int, ghost e: Event)
      requires Loaded() && IsText(name) && AreTexts(argv)
      requires IsArgv(argv) && |live| < MAX_TASK_COUNT && Loadable(config, name)
               ==> EnoughFrames(config, name, argv, free)
      modifies `tasks, `gdt, `taskId, `free, `phys, `live, `active
      ensures Loaded() && active == old(active)
      ensures inside <==> IsArgv(argv)
      ensures slot == -1 <==> !inside || !Loadable(config, name) || old(|live|) == MAX_TASK_COUNT
      ensures slot == -1 ==> unchanged(this)
      ensures slot != -1 ==> slot == old(|live|) && |live| == slot + 1
      ensures slot != -1 ==> IsExecOf(config, name, argv, e)
      ensures slot != -1 ==> Enabled(old(Abs()), e) && Abs() == Apply(old(Abs()), e, false)
    {
      hide Good, ConfigOk;
      ModuleNames(config);
      e := Return;
      var index := ModByName(config.modules, name);
      var argsSize := ArgumentSize(argv);
      var tmp;
      inside, tmp := Staging.StageArguments(argv);
      if !inside {
        return false, -1, e;
      }
      FirstIsUnique(config, name, index);
      if index == -1 || config.modules[index].addr == 0 {
        return true, -1, e;
      }
      slot, e := LoadModule(config.modules[index], argv, argsSize, tmp);
    }

    /** The page directory in use: a task's or, before the first task, the kernel's own. */
    function ActiveDir(): seq<Pte>
      requires -1 <= active < |tasks|
      reads this
    {
      if active == -1 then config.kernelDir else tasks[active].pagedir
    }

    /** The frame in which the kernel finds a page table at the given address. */
    method FrameAt(addr: nat) returns (f: nat)
      requires -1 <= active < |tasks| && MapsRam(config, ActiveDir()) && Untouched(config, phys)
      requires addr / PAGE_SIZE < config.ramPages
      ensures f == addr / PAGE_SIZE
    {
      RamWalk(config, ActiveDir(), phys, addr / PAGE_SIZE);
      f := WalkPage(phys, ActiveDir(), addr / PAGE_SIZE).frame;
    }

    /** The inner loop of task_free: frees the frame of every present page of one table, in order. */
    method FreePages(entries: seq<Pte>, ghost data: seq<nat>, ghost first: nat)
      requires |entries| == PAGES_IN_PT && first <= |data|
      requires forall e | 0 <= e < PAGES_IN_PT ::
                 if first + e < |data| then entries[e] == UserPte(data[first + e]) else !entries[e].present
      modifies `free, `frees
      ensures free == old(free) + Elems(data[first..Min(first + PAGES_IN_PT, |data|)])
      ensures frees == old(frees) + data[first..Min(first + PAGES_IN_PT, |data|)]
    {
      for i := 0 to PAGES_IN_PT
        invariant free == old(free) + Elems(data[first..Min(first + i, |data|)])
        invariant frees == old(frees) + data[first..Min(first + i, |data|)]
      {
        if entries[i].present {
          FrameFree(entries[i].frame * PAGE_SIZE);
          assert data[first..first + i + 1] == data[first..first + i] + [data[first + i]];
        }
      }
    }

    /** One pass of the outer loop of task_free: the pages of table number pt, then entry 0 and its frame once more.
        Repaired, it is the frame of the table itself that is freed last. */
    method FreeTable(addr: nat, repaired: bool, ghost lay: Layout, ghost pt: nat)
      requires pt < |lay.tables| && lay.tables[pt] * PAGE_SIZE == addr && pt * PAGES_IN_PT < |lay.data|
      requires lay.tables[pt] in phys && IsTable(phys[lay.tables[pt]], lay.data, pt)
      requires -1 <= active < |tasks| && MapsRam(config, ActiveDir()) && Untouched(config, phys)
      requires lay.tables[pt] < config.ramPages
      modifies `free, `frees, `phys
      ensures free == old(free) + Elems(PagesOf(lay, pt)) + (if repaired then {lay.tables[pt]} else {})
      ensures frees == old(frees) + PagesOf(lay, pt) + [LastFreed(lay, pt, repaired)]
      ensures SameOutside(old(phys), phys, {lay.tables[pt]})
    {
      hide MapsRam, Untouched;
      var t := FrameAt(addr);
      var entries := phys[t].entries;
      if entries[0].present {
        FreePages(entries, lay.data, pt * PAGES_IN_PT);
        phys := phys[t := Table(entries[0 := entries[0].(present := false)])];
        if repaired {
          FrameFree(t * PAGE_SIZE);
        } else {
          FrameFree(phys[t].entries[0].frame * PAGE_SIZE);
          assert entries[0].frame == PagesOf(lay, pt)[0];
        }
      }
    }

    /** The outer loop of task_free, under the page directory of whoever called the program that ends. */
    method FreeFrames(pageTables: seq<nat>, repaired: bool, ghost dir: seq<Pte>, ghost lay: Layout)
      requires Maps(phys, dir, pageTables, config.templ, lay.data, lay.tables) && LayoutOk(lay)
      requires -1 <= active < |tasks| && MapsRam(config, ActiveDir()) && Untouched(config, phys)
      requires forall t | t in lay.tables :: t in config.pool && t < config.ramPages
      modifies `free, `frees, `phys
      ensures free == old(free) + Elems(lay.data) + (if repaired then Elems(lay.tables) else {})
      ensures frees == old(frees) + FreeCalls(lay, |lay.tables|, repaired)
      ensures SameOutside(old(phys), phys, Elems(lay.tables))
    {
      hide IsTable, Maps, LayoutOk, SameOutside, MapsRam, Untouched, Freed;
      var pt := 0;
      FreedNothing(phys, free, frees, dir, pageTables, config.templ, lay, repaired);
      while pageTables[pt] != 0
        invariant pt <= |lay.tables| && 0 <= pt < |pageTables|
        invariant Freed(old(phys), old(free), old(frees), phys, free, frees, lay, pt, repaired)
        decreases |lay.tables| - pt
      {
        NotYetFreed(old(phys), phys, dir, pageTables, config, lay, pt) by {
          FreedMemory(old(phys), old(free), old(frees), phys, free, frees, lay, pt, repaired);
        }
        ghost var phys1, free1, frees1 := phys, free, frees;
        FreeTable(pageTables[pt], repaired, lay, pt);
        FreedNext(old(phys), old(free), old(frees), phys1, free1, frees1, phys, free, frees, lay, pt, repaired);
        pt := pt + 1;
      }
      FreedAll(old(phys), old(free), old(frees), phys, free, frees, dir, pageTables, config.templ, lay, pt, repaired);
    }

    /** task_free, of the top task. */
    method TaskFree(slot: nat, repaired: bool)
      requires Loaded() && live != [] && slot == |live| - 1 && -1 <= active < slot
      modifies `tasks, `taskId, `free, `frees, `phys, `live
      ensures Loaded() && live == old(live)[..slot]
      ensures Abs() == Apply(old(Abs()), Return, repaired)
      ensures var lay := old(live)[slot];
              LayoutOk(lay) && frees == old(frees) + FreeCalls(lay, |lay.tables|, repaired)
    {
      hide Good, ConfigOk, Maps, LayoutOk, MapsRam, Untouched, FreeCalls, SlotOk, Stack, SameOutside;
      ghost var lay := live[slot];
      AbstractInvariant();
      TopSlot(config, tasks, gdt, live, phys, free);
      CallerSeesTables();
      forall t | t in lay.tables
        ensures t in config.pool && t < config.ramPages
      {
        assert t in live[|live| - 1].tables;
      }
      FreeFrames(tasks[slot].pageTables, repaired, tasks[slot].pagedir, lay);
      ghost var freed := Elems(lay.data) + (if repaired then Elems(lay.tables) else {});
      PopSlot(config, tasks, gdt, live, old(phys), old(free), phys, freed);
      assert old(free) + Elems(lay.data) + (if repaired then Elems(lay.tables) else {}) == old(free) + freed;
      taskId := taskId - 1;
      tasks := tasks[slot := tasks[slot].(inUse := false)];
      live := live[..slot];
    }

    /** The caller's page directory shows the page tables of the task that ended. */
    lemma CallerSeesTables()
      requires Loaded() && live != [] && -1 <= active < |live| - 1
      ensures MapsRam(config, ActiveDir()) && Untouched(config, phys)
      ensures forall t | t in live[|live| - 1].tables :: t in config.pool && t < config.ramPages
    {
      if active >= 0 {
        SlotMapsRam(config, tasks, gdt, live, phys, active);
      }
      LiveFrames(config, tasks, gdt, live, phys, free, |live| - 1);
      forall t | t in live[|live| - 1].tables
        ensures t in config.pool && t < config.ramPages
      {
        assert t in FramesOf(live[|live| - 1]);
      }
    }

    /** task_exec up to the switch to the new task, which loads its page directory. It fails exactly if there is no such
        module or no free slot, and then changes nothing; or the arguments do not fit into the staging array. */
    method Enter(name: seq<Byte>, argv: seq<seq<Byte>>) returns (inside: bool, ok: bool, ghost e: Event)
      requires Valid() && IsText(name) && AreTexts(argv)
      requires IsArgv(argv) && |nesting| < MAX_TASK_COUNT && Loadable(config, name)
               ==> EnoughFrames(config, name, argv, free)
      modifies this
      ensures Valid()
      ensures inside <==> IsArgv(argv)
      ensures ok <==> inside && Loadable(config, name) && old(|nesting|) < MAX_TASK_COUNT
      ensures !ok ==> unchanged(this)
      ensures ok ==> IsExecOf(config, name, argv, e) && Enabled(old(Abs()), e) && Abs() == Apply(old(Abs()), e, false)
    {
      hide Good, ConfigOk;
      var slot;
      inside, slot, e := TaskLoad(name, argv);
      if slot == -1 {
        return inside, false, e;
      }
      nesting, active := nesting + [slot], slot;
      ok := true;
    }

    /** task_exec from the return of the task on, which brings back the caller's page directory. */
    method Leave(repaired: bool)
      requires Valid() && nesting != []
      modifies this
      ensures Valid()
      ensures Abs() == Apply(old(Abs()), Return, repaired)
    {
      hide Good, ConfigOk;
      var slot := nesting[|nesting| - 1];
      nesting := nesting[..|nesting| - 1];
      active := if nesting == [] then -1 else nesting[|nesting| - 1];
      TaskFree(slot, repaired);
    }

    /** Own addresses, seen from the abstract side. */
    lemma OwnIsTop(addr: Word)
      requires Loaded() && live != []
      ensures InTop(Abs(), addr) <==> Own(live, addr)
    {
      TopSlot(config, tasks, gdt, live, phys, free);
    }

    /** A store instruction at eip of the running program, at any 32-bit address: RAM changes only through a user
        mapping. If the instruction cannot be fetched or the address not be used, exception_handler stores instead. */
    method UserStore(eip: Word, addr: Word, b: Byte)
      requires Valid() && nesting != []
      requires !(CanUse(config, Abs(), eip) && CanUse(config, Abs(), addr)) ==> !Damages(config, live, eip)
      modifies `phys
      ensures Valid()
      ensures Abs() == Apply(old(Abs()), WriteStep(config, old(Abs()), eip, addr, b), false)
    {
      hide Good, ConfigOk, WalkPage, StoreByte, Damages, FrameBuffer, Own, InTop, Apply;
      OwnIsTop(eip);
      OwnIsTop(addr);
      StoreAnywhere(config, tasks, gdt, live, phys, free, eip, b);
      StoreAnywhere(config, tasks, gdt, live, phys, free, addr, b);
      var fetch := WalkPage(phys, tasks[active].pagedir, eip / PAGE_SIZE);
      var walk := WalkPage(phys, tasks[active].pagedir, addr / PAGE_SIZE);
      if !(fetch.Hit? && fetch.user && walk.Hit? && walk.user) {
        ExceptionHandler(eip);
      } else if walk.frame in phys {
        phys := StoreByte(phys, walk.frame, addr % PAGE_SIZE, b);
      }
    }

    /** exception_handler, for an exception of the running program at eip. */
    method ExceptionHandler(eip: Word)
      requires Valid() && nesting != [] && !Damages(config, live, eip)
      modifies `phys
      ensures Valid()
      ensures Abs() == Apply(old(Abs()), KernelStore(eip, IRET_OPCODE), false)
    {
      SystemCallStore(eip, IRET_OPCODE);
    }

    /** A byte that the kernel stores at an address of the running program's choice. */
    method SystemCallStore(addr: Word, b: Byte)
      requires Valid() && nesting != [] && !Damages(config, live, addr)
      modifies `phys
      ensures Valid()
      ensures Abs() == Apply(old(Abs()), KernelStore(addr, b), false)
    {
      hide Good, ConfigOk, WalkPage, StoreByte, Damages, Apply;
      KernelStoreAnywhere(config, tasks, gdt, live, phys, free, addr, b, 0);
      var walk := WalkPage(phys, tasks[active].pagedir, addr / PAGE_SIZE);
      if walk.frame in phys {
        phys := StoreByte(phys, walk.frame, addr % PAGE_SIZE, b);
      }
    }

    /** An exception at an instruction that the program could fetch costs nobody else anything: the byte over it is the
        program's own, or none of RAM. */
    lemma ExceptionsAtHome(eip: Word)
      requires Valid() && nesting != [] && CanUse(config, Abs(), eip)
      ensures !Damages(config, live, eip) && Spares(Abs(), eip, |live| - 1)
    {
      OwnIsTop(eip);
      WalkAnywhere(config, tasks, gdt, live, phys, free, eip);
      if !Own(live, eip) {
        NobodysFrame(config, tasks, gdt, live, phys, free, eip / PAGE_SIZE);
      }
    }

    /** A system call can be made to change any byte of any live task, waiting or not, and nothing else, and an address
        that does it always exists. */
    lemma EveryByteInReach(d: nat, k: nat, b: Byte) returns (addr: Word)
      requires Valid() && d < |live| && k < |Tasks()[d].memory|
      ensures !Damages(config, live, addr)
      ensures var t := Tasks()[d];
              Apply(Abs(), KernelStore(addr, b), false) == Abs().(stack := Tasks()[d := t.(memory := t.memory[k := b])])
    {
      hide Good, ConfigOk, Damages, Apply, Stack, Invariant, Reserved;
      AbstractInvariant();
      PageOfTask(d, k / PAGE_SIZE);
      addr := live[d].data[k / PAGE_SIZE] * PAGE_SIZE + k % PAGE_SIZE;
      NoDamage(addr, live[d].data[k / PAGE_SIZE]);
      KernelReaches(Abs(), d, k, b, false);
    }

    lemma AbstractInvariant()
      requires Loaded()
      ensures |live| <= |tasks| && |Tasks()| == |live| && Abs().stack == Tasks() && Invariant(Abs())
      ensures forall i | 0 <= i < |live| ::
                Tasks()[i].lay == live[i] && |Tasks()[i].memory| == |live[i].data| * PAGE_SIZE
    {
      assert Layouts(Tasks()) == live;
    }

    lemma NoDamage(addr: Word, frame: nat)
      requires frame * PAGE_SIZE <= addr < frame * PAGE_SIZE + PAGE_SIZE
      requires frame < config.ramPages && !Reserved(config, frame) && forall lay | lay in live :: frame !in lay.tables
      ensures !Damages(config, live, addr)
    {
      assert addr / PAGE_SIZE == frame;
      hide Reserved;
    }

    lemma PageOfTask(d: nat, p: nat)
      requires Loaded() && d < |live| && p < |live[d].data|
      ensures |live| <= |tasks| && live[d].data[p] < config.ramPages <= TASK_FIRST_PAGE
      ensures !Reserved(config, live[d].data[p])
      ensures forall lay | lay in live :: live[d].data[p] !in lay.tables
    {
      var frame := live[d].data[p];
      AbstractInvariant();
      LiveFrames(config, tasks, gdt, live, phys, free, d);
      assert frame in FramesOf(live[d]);
      forall j | 0 <= j < |live|
        ensures frame !in live[j].tables
      {
        OnlyOwner(Abs(), d, p, j);
      }
    }

    /** After a store by the kernel, from the instruction at code, the kernel and all waiting tasks are as they were. */
    ghost predicate Harmless(addr: Word, b: Byte, code: Word)
      requires Valid() && nesting != []
      reads this
    {
      var n := |live| - 1;
      && |tasks[n].pagedir| == PAGETABLES_IN_PD
      && Survives(config, tasks, gdt, live, phys, free, tasks[n].pagedir, addr, b, code)
      && Stack(tasks, live, KernelStored(phys, tasks[n].pagedir, addr, b, code))[..n] == Tasks()[..n]
    }

    /** That is so for every value if and only if the address does no damage and is the running program's own or in no
        page of a waiting task. */
    lemma HarmlessStores(addr: Word, code: Word)
      requires Valid() && nesting != [] && KernelCode(config, code)
      ensures (forall b: Byte :: Harmless(addr, b, code))
              <==> !Damages(config, live, addr) && Spares(Abs(), addr, |live| - 1)
    {
      hide *;
      if Damages(config, live, addr) {
        var b := HarmfulValue(addr, code);
      } else {
        HarmlessIff(addr, code);
      }
    }

    lemma HarmfulValue(addr: Word, code: Word) returns (b: Byte)
      requires Valid() && nesting != [] && KernelCode(config, code) && Damages(config, live, addr)
      ensures !Harmless(addr, b, code)
    {
      hide Good, ConfigOk, Damages, KernelStored, KernelCode;
      b := DamagingValue(config, tasks, gdt, live, phys, free, addr, code);
    }

    lemma HarmlessIff(addr: Word, code: Word)
      requires Valid() && nesting != [] && !Damages(config, live, addr)
      ensures (forall b: Byte :: Harmless(addr, b, code)) <==> Spares(Abs(), addr, |live| - 1)
    {
      hide Good, ConfigOk, Damages, Invariant, Harmless, Spares, Apply, Stack, LeavesBelow;
      AbstractInvariant();
      forall b: Byte
        ensures Harmless(addr, b, code) <==> LeavesBelow(Abs(), KernelStore(addr, b), |live| - 1, false)
      {
        HarmlessStep(addr, b, code);
      }
      SparesExactly(Abs(), addr, |live| - 1, false);
    }

    lemma HarmlessStep(addr: Word, b: Byte, code: Word)
      requires Valid() && nesting != [] && !Damages(config, live, addr)
      ensures Harmless(addr, b, code) <==> LeavesBelow(Abs(), KernelStore(addr, b), |live| - 1, false)
    {
      hide Good, ConfigOk, Damages, KernelStored, Apply, WalkPage;
      KernelStoreAnywhere(config, tasks, gdt, live, phys, free, addr, b, code);
    }

    /** A load by the kernel, from the instruction at code, leaves all memory as it was if something is mapped at the
        address; otherwise the kernel loses that instruction. */
    lemma HarmlessLoads(addr: Word, code: Word)
      requires Valid() && nesting != [] && KernelCode(config, code)
      ensures |ActiveDir()| == PAGETABLES_IN_PD
      ensures var phys' := KernelLoaded(phys, ActiveDir(), addr, code);
              if Unmapped(config, live, addr) then !Good(config, tasks, gdt, live, phys', free) else phys' == phys
    {
      hide Good, ConfigOk, Unmapped, KernelLoaded, KernelCode;
      LoadExactly(config, tasks, gdt, live, phys, free, addr, code);
    }

    /** A null pointer, such as get_ticks hands to system call 3, is harmless: no task and no kernel structure has
        frame 0. */
    lemma NullIsHarmless(addr: Word, b: Byte, code: Word)
      requires Valid() && nesting != [] && addr < PAGE_SIZE
      ensures Harmless(addr, b, code) && Apply(Abs(), KernelStore(addr, b), false) == Abs()
    {
      hide *;
      NullDamages(addr);
      NullStore(addr, b);
      HarmlessStep(addr, b, code);
    }

    lemma NullDamages(addr: Word)
      requires Valid() && nesting != [] && addr < PAGE_SIZE
      ensures !Damages(config, live, addr)
    {
      hide Good, ConfigOk, Reserved;
      NobodysNull();
      NoDamage(addr, 0);
    }

    lemma NullStore(addr: Word, b: Byte)
      requires Valid() && nesting != [] && addr < PAGE_SIZE
      ensures Apply(Abs(), KernelStore(addr, b), false) == Abs()
      ensures LeavesBelow(Abs(), KernelStore(addr, b), |live| - 1, false)
    {
      hide Good, ConfigOk, Reserved;
      NobodysNull();
      AbstractInvariant();
      assert addr / PAGE_SIZE == 0 && addr % PAGE_SIZE == addr;
      NobodyPoked(Abs(), 0, addr, b);
    }

    lemma NobodysNull()
      requires Valid() && live != []
      ensures !Reserved(config, 0) && config.ramPages > 0
      ensures forall lay | lay in live :: 0 !in lay.data && 0 !in lay.tables
    {
      forall i | 0 <= i < |live|
        ensures 0 !in live[i].data && 0 !in live[i].tables
      {
        LiveFrames(config, tasks, gdt, live, phys, free, i);
        assert 0 !in FramesOf(live[i]);
      }
      PageOfTask(0, 0);
    }

    /** Any sequence of requests is answered by a legal run of the abstract system, to its end or to the first request
        that has no answer there: a program that the free frames do not suffice for or whose arguments are written
        behind the staging array, a store by the kernel that does damage, or a load by it where nothing is mapped. */
    method Run(requests: seq<Request>) returns (done: nat, ghost run: seq<Event>)
      requires Valid() && forall r | r in requests :: IsRequest(r)
      modifies this
      ensures Valid() && done <= |requests|
      ensures done < |requests| ==> IsRequest(requests[done]) && Unanswered(requests[done])
      ensures Legal(old(Abs()), run, false) && Abs() == Final(old(Abs()), run, false)
      ensures Answers(config, old(Abs()), requests[..done], run)
      ensures |nesting| == Depth(config, requests[..done], old(|nesting|))
    {
      hide Good, ConfigOk, Legal, Final, Enabled, Apply, Answer, Unanswered;
      run := [];
      EmptyRun(Abs());
      done := 0;
      while done < |requests|
        invariant done <= |requests| && Valid()
        invariant Legal(old(Abs()), run, false) && Abs() == Final(old(Abs()), run, false)
        invariant Answers(config, old(Abs()), requests[..done], run)
        invariant |nesting| == Depth(config, requests[..done], old(|nesting|))
      {
        hide Answers, Depth, Stack;
        var proceed;
        ghost var steps;
        proceed, steps := ServeCounted(requests[done]);
        DepthNext(config, requests, done, old(|nesting|));
        if !proceed {
          return;
        }
        Append(old(Abs()), run, steps, false);
        AnswersNext(config, old(Abs()), requests, done, run, steps);
        run := run + steps;
        done := done + 1;
      }
    }

    /** A program that starts and ends, on a kernel without programs, leaves it without programs and with fewer free
        frames, by just the page tables of that program: the least number that maps image, twice the argument block, and
        2 MB of stack. */
    method StartAndFinish(name: seq<Byte>, argv: seq<seq<Byte>>) returns (ghost image: seq<Byte>, ghost lost: set<nat>)
      requires Valid() && nesting == [] && IsText(name) && IsArgv(argv)
      requires Loadable(config, name) && EnoughFrames(config, name, argv, free)
      modifies this
      ensures Valid() && nesting == [] && Tasks() == []
      ensures exists i :: IsFirst(config.modules, name, i) && image == ImageOf(config, config.modules[i])
      ensures lost <= old(free) && free == old(free) - lost
      ensures FourMegabytes(|image| + 2 * |Block(argv)| + 0x20_0000, |lost|)
    {
      hide Good, ConfigOk, Legal, Final, Enabled, Apply, Answers, EnoughFrames, Loadable, IsExecOf, Block, Stack;
      hide FourMegabytes;
      ghost var s0 := Abs();
      var requests := [Start(name, argv), Finish];
      assert forall r | r in requests :: IsRequest(r);
      var done;
      ghost var run;
      done, run := Run(requests);
      NothingAnswered(config, s0, run);
      assert requests[..0] == [];
      assert done == 2 && requests[..2] == requests;
      BothAnswered(config, s0, name, argv, run);
      lost := Elems(run[0].lay.tables);
      image := run[0].image;
    }

    /** Programs that keep to themselves are always answered: the end of a program, and stores, exceptions and system
        calls at addresses of their own. */
    lemma OwnAddressesAnswered(eip: Word, addr: Word, b: Byte)
      requires Valid()
      requires nesting != [] ==> var n := |Tasks()[|live| - 1].memory|;
                                 0 <= eip - 0x4000_0000 < n && 0 <= addr - 0x4000_0000 < n
      ensures !Unanswered(Finish) && IsRequest(Finish)
      ensures IsRequest(Write(eip, addr, b)) && !Unanswered(Write(eip, addr, b))
      ensures IsRequest(Trap(eip)) && !Unanswered(Trap(eip))
      ensures IsRequest(CallWrites(addr, b)) && !Unanswered(CallWrites(addr, b))
      ensures IsRequest(CallReads(addr)) && !Unanswered(CallReads(addr))
    {
      if nesting != [] {
        OwnIsTop(eip);
        OwnIsTop(addr);
        hide Good, Stack, FrameBuffer, HitsEntry, Reserved;
        RamBelow();
      }
    }

    lemma RamBelow()
      requires Loaded()
      ensures config.ramPages <= 0x4_0000
    {
    }

    /** A request that goes beyond what the abstract system describes. */
    ghost predicate Unanswered(r: Request)
      requires Valid() && IsRequest(r)
      reads this
    {
      match r
      case Start(name, argv) =>
        !IsArgv(argv)
        || (|nesting| < MAX_TASK_COUNT && Loadable(config, name) && !EnoughFrames(config, name, argv, free))
      case Finish => false
      case Write(eip, addr, _) =>
        nesting != [] && !(CanUse(config, Abs(), eip) && CanUse(config, Abs(), addr)) && Damages(config, live, eip)
      case Trap(eip) => nesting != [] && Damages(config, live, eip)
      case CallWrites(addr, _) => nesting != [] && Damages(config, live, addr)
      case CallReads(addr) => nesting != [] && Unmapped(config, live, addr)
    }

    /** A slot in use whose page tables the address hits. */
    predicate SlotHit(i: nat, addr: Word)
      requires i < |tasks|
      reads this
    {
      && tasks[i].inUse && addr / PAGE_SIZE != 0 && addr / PAGE_SIZE * PAGE_SIZE in tasks[i].pageTables
      && (addr % PAGE_SIZE % 4 == 0 || EntryPresent(phys, addr / PAGE_SIZE, addr % PAGE_SIZE))
    }

    /** The same as Damages, from the task table and the page tables. */
    predicate HitsKernel(addr: Word)
      requires 0 <= active < |tasks| && |ActiveDir()| == PAGETABLES_IN_PD
      reads this
    {
      var page := addr / PAGE_SIZE;
      if page < config.ramPages then Reserved(config, page) || exists i | 0 <= i < |tasks| :: SlotHit(i, addr)
      else WalkPage(phys, ActiveDir(), page).Fault?
    }

    lemma HitsExactly(addr: Word)
      requires Valid() && nesting != []
      ensures |ActiveDir()| == PAGETABLES_IN_PD && (HitsKernel(addr) <==> Damages(config, live, addr))
    {
      hide Good, ConfigOk, Reserved, WalkPage, EntryPresent, HitsEntry, Own, FrameBuffer, SlotHit;
      MappedExactly(addr);
      SlotTables(addr);
      SameTables(addr);
    }

    /** Which addresses the loaded page directory does not map. */
    lemma MappedExactly(addr: Word)
      requires Valid() && nesting != []
      ensures |ActiveDir()| == PAGETABLES_IN_PD && addr / PAGE_SIZE < 0x10_0000
      ensures WalkPage(phys, ActiveDir(), addr / PAGE_SIZE).Fault? <==> Unmapped(config, live, addr)
    {
      hide Good, ConfigOk, WalkPage, Own, FrameBuffer;
      WalkAnywhere(config, tasks, gdt, live, phys, free, addr);
    }

    lemma SameTables(addr: Word)
      requires |live| <= |tasks|
      requires forall i | 0 <= i < |tasks| :: SlotHit(i, addr) <==> i < |live| && HitsEntry(live[i], addr)
      ensures (exists i | 0 <= i < |tasks| :: SlotHit(i, addr)) <==> exists lay :: lay in live && HitsEntry(lay, addr)
    {
      hide SlotHit, HitsEntry;
      if lay :| lay in live && HitsEntry(lay, addr) {
        var i :| 0 <= i < |live| && live[i] == lay;
        assert SlotHit(i, addr);
      }
      if i :| 0 <= i < |tasks| && SlotHit(i, addr) {
        assert live[i] in live;
      }
    }

    lemma SlotTables(addr: Word)
      requires Loaded()
      ensures forall i | 0 <= i < |tasks| :: SlotHit(i, addr) <==> i < |live| && HitsEntry(live[i], addr)
    {
      forall i | 0 <= i < |tasks|
        ensures SlotHit(i, addr) <==> i < |live| && HitsEntry(live[i], addr)
      {
        if i < |live| {
          assert SlotOk(config, tasks[i], gdt[FIRST_TASK_INDEX + i], i, live[i], phys);
          hide Good, ConfigOk;
          EntryHit(phys, tasks[i].pagedir, tasks[i].pageTables, config.templ, live[i], addr);
        }
      }
    }

    /** One request. What it achieves is stated on the tasks and the pool themselves: a start that succeeds puts one
        task on, a return takes one off, and the stores change the named byte. */
    method Serve(r: Request) returns (proceed: bool, ghost steps: seq<Event>)
      requires Valid() && IsRequest(r)
      modifies this
      ensures Valid()
      ensures proceed <==> !old(Unanswered(r))
      ensures !proceed ==> unchanged(this)
      ensures proceed ==> Answer(config, old(Abs()), r, steps) && Legal(old(Abs()), steps, false)
                          && Abs() == Final(old(Abs()), steps, false)
      ensures proceed && r.Start? ==>
                if Loadable(config, r.name) && old(|nesting|) < 8 then
                  StartedOne(config, old(Tasks()), old(free), Tasks(), free, r.name, r.argv)
                else unchanged(this)
      ensures r.Finish? && old(nesting) != [] ==> ReturnedOne(old(Tasks()), old(free), Tasks(), free)
      ensures proceed && r.Write? && old(nesting) != [] ==>
                WrittenOne(config, old(Abs()), Abs(), r.eip, r.addr, r.value)
      ensures proceed && r.Trap? && old(nesting) != [] ==>
                ByteStored(old(Tasks()), Tasks(), r.eip, 0xCF) && free == old(free)
      ensures proceed && r.CallWrites? && old(nesting) != [] ==>
                ByteStored(old(Tasks()), Tasks(), r.addr, r.value) && free == old(free)
      ensures r.CallReads? || (old(nesting) == [] && !r.Start?) ==> unchanged(this)
    {
      hide Loaded, Unanswered, Answer, Legal, Final, StartedOne, ReturnedOne, WrittenOne, ByteStored, Loadable, Stack;
      hide IsRequest;
      steps, proceed := [], true;
      if r.Start? {
        Requested(r);
      }
      match r
      case Start(name, argv) => proceed, steps := ServeStart(name, argv);
      case Finish => steps := ServeFinish();
      case Write(eip, addr, value) => proceed, steps := ServeWrite(eip, addr, value);
      case Trap(eip) => proceed, steps := ServeTrap(eip);
      case CallWrites(addr, value) => proceed, steps := ServeCallWrites(addr, value);
      case CallReads(addr) => proceed, steps := ServeCallReads(addr);
    }

    /** The same, with nothing but the number of running programs said about its effect. */
    method ServeCounted(r: Request) returns (proceed: bool, ghost steps: seq<Event>)
      requires Valid() && IsRequest(r)
      modifies this
      ensures Valid()
      ensures proceed <==> !old(Unanswered(r))
      ensures !proceed ==> unchanged(this)
      ensures proceed ==> Answer(config, old(Abs()), r, steps) && Legal(old(Abs()), steps, false)
                          && Abs() == Final(old(Abs()), steps, false)
      ensures proceed ==>
                var before := old(|nesting|);
                |nesting| == match r
                             case Start(name, _) => if Loadable(config, name) && before < 8 then before + 1 else before
                             case Finish => if before > 0 then before - 1 else 0
                             case _ => before
    {
      hide Good, ConfigOk, Unanswered, Answer, Legal, Final, Runs, Loadable, IsRequest, Lies, CanUse;
      proceed, steps := Serve(r);
      assert |Tasks()| == |nesting|;
    }

    method ServeStart(name: seq<Byte>, argv: seq<seq<Byte>>) returns (proceed: bool, ghost steps: seq<Event>)
      requires Valid() && IsText(name) && AreTexts(argv)
      modifies this
      ensures Valid()
      ensures proceed <==> !old(Unanswered(Start(name, argv)))
      ensures !proceed ==> unchanged(this)
      ensures proceed ==> Answer(config, old(Abs()), Start(name, argv), steps) && Legal(old(Abs()), steps, false)
                          && Abs() == Final(old(Abs()), steps, false)
      ensures proceed ==>
                if Loadable(config, name) && old(|nesting|) < 8 then
                  StartedOne(config, old(Tasks()), old(free), Tasks(), free, name, argv)
                else unchanged(this)
    {
      hide Good, Legal, Final, Apply, EnoughFrames, ConfigOk, Loadable, IsArgv, IsExecOf, StartedOne, Enabled;
      EmptyRun(Abs());
      steps := [];
      proceed := Affordable(name, argv);
      if proceed {
        var ok;
        ghost var e;
        proceed, ok, e := Enter(name, argv);
        if ok {
          OneStep(old(Abs()), e);
          steps := [e];
          StartsOne(config, old(Abs()), e, name, argv);
        }
      }
    }

    method ServeFinish() returns (ghost steps: seq<Event>)
      requires Valid()
      modifies this
      ensures Valid()
      ensures Answer(config, old(Abs()), Finish, steps) && Legal(old(Abs()), steps, false)
              && Abs() == Final(old(Abs()), steps, false) && !old(Unanswered(Finish))
      ensures if old(nesting) == [] then unchanged(this) else ReturnedOne(old(Tasks()), old(free), Tasks(), free)
    {
      hide Good, Legal, Final, Apply, ConfigOk;
      EmptyRun(Abs());
      steps := [];
      if nesting != [] {
        OneStep(Abs(), Return);
        ReturnEffect(Abs());
        Leave(false);
        steps := [Return];
      }
    }

    method ServeWrite(eip: Word, addr: Word, value: Byte) returns (proceed: bool, ghost steps: seq<Event>)
      requires Valid()
      modifies this
      ensures Valid()
      ensures proceed <==> !old(Unanswered(Write(eip, addr, value)))
      ensures !proceed || old(nesting) == [] ==> unchanged(this)
      ensures proceed ==> Answer(config, old(Abs()), Write(eip, addr, value), steps) && Legal(old(Abs()), steps, false)
                          && Abs() == Final(old(Abs()), steps, false)
      ensures proceed && old(nesting) != [] ==> WrittenOne(config, old(Abs()), Abs(), eip, addr, value)
    {
      hide Good, Legal, Final, Apply, ConfigOk, Damages, CanUse, Lies, WrittenOne;
      EmptyRun(Abs());
      steps, proceed := [], true;
      if nesting != [] {
        proceed := Executable(eip, addr);
        if proceed {
          steps := [WriteStep(config, Abs(), eip, addr, value)];
          OneStep(Abs(), steps[0]);
          WritesOne(config, Abs(), eip, addr, value);
          UserStore(eip, addr, value);
        }
      }
    }

    method ServeTrap(eip: Word) returns (proceed: bool, ghost steps: seq<Event>)
      requires Valid()
      modifies this
      ensures Valid()
      ensures proceed <==> !old(Unanswered(Trap(eip)))
      ensures !proceed || old(nesting) == [] ==> unchanged(this)
      ensures proceed ==> Answer(config, old(Abs()), Trap(eip), steps) && Legal(old(Abs()), steps, false)
                          && Abs() == Final(old(Abs()), steps, false)
      ensures proceed && old(nesting) != [] ==> ByteStored(old(Tasks()), Tasks(), eip, 0xCF) && free == old(free)
    {
      hide Good, Legal, Final, Apply, ConfigOk, Damages, HitsKernel, ByteStored;
      EmptyRun(Abs());
      steps, proceed := [], true;
      if nesting != [] {
        HitsExactly(eip);
        proceed := !HitsKernel(eip);
        if proceed {
          OneStep(Abs(), KernelStore(eip, IRET_OPCODE));
          KernelStoreEffect(Abs(), eip, IRET_OPCODE, false);
          ExceptionHandler(eip);
          steps := [KernelStore(eip, IRET_OPCODE)];
        }
      }
    }

    method ServeCallWrites(addr: Word, value: Byte) returns (proceed: bool, ghost steps: seq<Event>)
      requires Valid()
      modifies this
      ensures Valid()
      ensures proceed <==> !old(Unanswered(CallWrites(addr, value)))
      ensures !proceed || old(nesting) == [] ==> unchanged(this)
      ensures proceed ==> Answer(config, old(Abs()), CallWrites(addr, value), steps) && Legal(old(Abs()), steps, false)
                          && Abs() == Final(old(Abs()), steps, false)
      ensures proceed && old(nesting) != [] ==> ByteStored(old(Tasks()), Tasks(), addr, value) && free == old(free)
    {
      hide Good, Legal, Final, Apply, ConfigOk, Damages, HitsKernel, ByteStored;
      EmptyRun(Abs());
      steps, proceed := [], true;
      if nesting != [] {
        HitsExactly(addr);
        proceed := !HitsKernel(addr);
        if proceed {
          OneStep(Abs(), KernelStore(addr, value));
          KernelStoreEffect(Abs(), addr, value, false);
          SystemCallStore(addr, value);
          steps := [KernelStore(addr, value)];
        }
      }
    }

    method ServeCallReads(addr: Word) returns (proceed: bool, ghost steps: seq<Event>)
      requires Valid()
      ensures proceed <==> !Unanswered(CallReads(addr))
      ensures Answer(config, Abs(), CallReads(addr), steps) && Legal(Abs(), steps, false)
              && Abs() == Final(Abs(), steps, false)
    {
      hide Good, Legal, Final, ConfigOk, WalkPage, Unmapped;
      EmptyRun(Abs());
      steps, proceed := [], true;
      if nesting != [] {
        MappedExactly(addr);
        proceed := WalkPage(phys, ActiveDir(), addr / PAGE_SIZE).Hit?;
      }
    }

    /** Executing the store instruction at eip does no damage. */
    method Executable(eip: Word, addr: Word) returns (ok: bool)
      requires Valid() && nesting != []
      ensures ok <==> (CanUse(config, Abs(), eip) && CanUse(config, Abs(), addr)) || !Damages(config, live, eip)
    {
      hide Good, ConfigOk, WalkPage, StoreByte, Damages, FrameBuffer, Own, InTop, Apply, HitsKernel;
      OwnIsTop(eip);
      OwnIsTop(addr);
      StoreAnywhere(config, tasks, gdt, live, phys, free, eip, 0);
      StoreAnywhere(config, tasks, gdt, live, phys, free, addr, 0);
      HitsExactly(eip);
      var fetch := WalkPage(phys, ActiveDir(), eip / PAGE_SIZE);
      var walk := WalkPage(phys, ActiveDir(), addr / PAGE_SIZE);
      ok := (fetch.Hit? && fetch.user && walk.Hit? && walk.user) || !HitsKernel(eip);
    }

    method Affordable(name: seq<Byte>, argv: seq<seq<Byte>>) returns (enough: bool)
      requires Valid() && IsText(name) && AreTexts(argv)
      ensures enough <==> (IsArgv(argv) && |nesting| < MAX_TASK_COUNT && Loadable(config, name)
                           ==> EnoughFrames(config, name, argv, free))
    {
      hide Good, ConfigOk, EnoughFrames;
      ModuleNames(config);
      var index := ModByName(config.modules, name);
      var size := ArgumentSize(argv);
      if !IsArgv(argv) {
        return true;
      }
      EnoughIff(config, name, argv, free, index);
      FirstIsUnique(config, name, index);
      enough := |nesting| == MAX_TASK_COUNT || index == -1 || config.modules[index].addr == 0
                || |free| >= FramesFor(config.modules[index].size + 2 * size + STACK_SIZE);
    }

    // ----- lookups ---------------------------------------------------------------------------------

    /** get_task_by_selector: the slot whose GDT entry has the selector, -1 for NULL. */
    method GetTaskBySelector(selector: nat) returns (slot: int)
      ensures slot == if selector % 8 == 0 && 6 <= selector / 8 < 14 then selector / 8 - 6 else -1
    {
      var entry := FIRST_TASK_INDEX;
      for i := 0 to MAX_TASK_COUNT
        invariant entry == FIRST_TASK_INDEX + i
        invariant selector % 8 == 0 ==> !(6 <= selector / 8 < 6 + i)
      {
        if selector == Selector(entry) {
          return i;
        }
        entry := entry + 1;
      }
      return -1;
    }

    /** get_task_addr_by_id: the slot of the live task with the given id, -1 for NULL. */
    method GetTaskById(id: nat) returns (slot: int)
      requires Valid()
      ensures slot == if id < |nesting| then id else -1
    {
      for i := 0 to MAX_TASK_COUNT
        invariant id < |nesting| ==> i <= id
      {
        if tasks[i].inUse && tasks[i].id == id {
          return i;
        }
      }
      return -1;
    }

    /** In every state between two calls the frames of distinct live tasks are disjoint, and none is free. */
    lemma FrameDiscipline(i: nat, j: nat)
      requires Valid() && i < j < |live|
      ensures FramesOf(live[i]) !! FramesOf(live[j])
      ensures FramesOf(live[i]) !! free && FramesOf(live[j]) !! free
      ensures FramesOf(live[i]) + FramesOf(live[j]) + free <= config.pool
    {
      LiveFrames(config, tasks, gdt, live, phys, free, i);
      LiveFrames(config, tasks, gdt, live, phys, free, j);
    }

    /** In every state, by the layout that the compiler gives task_t: the slot of live task i starts with its page
        directory, its GDT entry describes its TSS, its kernel stack is the array of that name, filled from the end, and
        no other field k of the slot and no other slot reaches into that stack. */
    lemma SlotFields(i: nat, k: nat, j: nat)
      requires Valid() && i < |nesting| && k < |TaskLayout.TASK_T| && j < |nesting|
      ensures |nesting| <= |tasks| && |gdt| == 14
      ensures var fields := TaskLayout.TASK_T;
              var base := tasks[i].tss.cr3;
              && DescribedBase(LowDword(gdt[6 + i]), HighDword(gdt[6 + i]))
                 == Bits(base + TaskLayout.Offset(fields, TaskLayout.TSS))
              && StackApart(config.tasksAddr, i, base, tasks[i].tss.esp0, k, j, tasks[j].tss.cr3)
    {
      hide *;
      SlotsAt(i);
      SlotsAt(j);
      TaskLayout.TaskFields();
      FieldsApart(config.tasksAddr, i, tasks[i].tss.cr3, tasks[i].tss.esp0, k, j, tasks[j].tss.cr3);
    }

    lemma SlotsAt(i: nat)
      requires Valid() && i < |nesting|
      ensures |nesting| <= |tasks| && |gdt| == 14
      ensures tasks[i].tss.cr3 == config.tasksAddr + i * 0x15000 && tasks[i].tss.esp0 == tasks[i].tss.cr3 + 0x14072
      ensures DescribedBase(LowDword(gdt[6 + i]), HighDword(gdt[6 + i])) == Bits(tasks[i].tss.cr3 + 0x1000)
    {
      hide Valid, DescribedBase, DescribedLimit, DescribedRights, LowDword, HighDword, Flat, FixedEntry, Reserved, Bits;
      SlotDiscipline();
      assert Published(config, tasks[i], gdt[6 + i], i);
    }

    /** Slots, ids, selectors, GDT entries, the counter and kernel memory in every state between two calls. */
    lemma SlotDiscipline()
      requires Valid()
      ensures |nesting| <= |tasks| == MAX_TASK_COUNT && |gdt| == GDT_ENTRIES && taskId == 1 + |nesting|
      ensures active == |nesting| - 1
      ensures forall d | 0 <= d < |nesting| :: nesting[d] == d
      ensures forall i | 0 <= i < MAX_TASK_COUNT :: tasks[i].inUse <==> i < |nesting|
      ensures forall i | 0 <= i < |nesting| :: Published(config, tasks[i], gdt[6 + i], i)
      ensures forall j | 0 <= j < 6 :: gdt[j] == FixedEntry(j, Bits(config.initialTss))
      ensures Flat(gdt[1], 9, 0) && Flat(gdt[2], 3, 0) && Flat(gdt[3], 9, 3) && Flat(gdt[4], 3, 3)
      ensures forall f | f in config.boot && Reserved(config, f) :: f in phys && phys[f] == config.boot[f]
    {
      FixedSegments(Bits(config.initialTss));
      hide Flat, FixedEntry;
      forall i | 0 <= i < |nesting|
        ensures Published(config, tasks[i], gdt[6 + i], i)
      {
        SlotPublished(config, tasks[i], gdt[FIRST_TASK_INDEX + i], i, live[i], phys);
      }
    }
  }

  /** Slot i starts at base, the 65536 bytes below esp0 are its kernel stack, and neither field k of the slot, if that
      is another one, nor slot j, if that is another one, has a byte of them. */
  predicate StackApart(tasksAddr: nat, i: nat, base: nat, esp0: nat, k: nat, j: nat, other: nat)
    requires k < |TaskLayout.TASK_T|
  {
    var fields := TaskLayout.TASK_T;
    && base == tasksAddr + i * TaskLayout.SizeOf(fields, 4096)
    && esp0 == base + TaskLayout.Offset(fields, TaskLayout.KERNEL_STACK) + 65536
    && (k == TaskLayout.KERNEL_STACK || base + TaskLayout.End(fields, k) <= esp0 - 65536
        || esp0 <= base + TaskLayout.Offset(fields, k))
    && (j == i || other + TaskLayout.SizeOf(fields, 4096) <= esp0 - 65536 || esp0 <= other)
  }

  lemma FieldsApart(tasksAddr: nat, i: nat, base: nat, esp0: nat, k: nat, j: nat, other: nat)
    requires k < |TaskLayout.TASK_T| && base == tasksAddr + i * 0x15000 && esp0 == base + 0x14072
    requires other == tasksAddr + j * 0x15000
    ensures StackApart(tasksAddr, i, base, esp0, k, j, other)
  {
    TaskLayout.TaskFields();
    hide TaskLayout.Offset, TaskLayout.SizeOf;
    if k < TaskLayout.KERNEL_STACK {
      TaskLayout.FieldsApart(TaskLayout.TASK_T, 4096, k, TaskLayout.KERNEL_STACK);
    } else if k > TaskLayout.KERNEL_STACK {
      TaskLayout.FieldsApart(TaskLayout.TASK_T, 4096, TaskLayout.KERNEL_STACK, k);
    }
  }

  /** The frames behind page table number pt. */
  function PagesOf(lay: Layout, pt: nat): (r: seq<nat>)
    requires pt * PAGES_IN_PT < |lay.data|
    ensures r != [] && r[0] == lay.data[pt * PAGES_IN_PT]
  {
    lay.data[pt * PAGES_IN_PT..Min(pt * PAGES_IN_PT + PAGES_IN_PT, |lay.data|)]
  }

  /** What line 138 frees. */
  function LastFreed(lay: Layout, pt: nat, repaired: bool): nat
    requires pt < |lay.tables| && pt * PAGES_IN_PT < |lay.data|
  {
    if repaired then lay.tables[pt] else lay.data[pt * PAGES_IN_PT]
  }

  /** The calls of frame_free for the first pt tables, in order. */
  ghost function FreeCalls(lay: Layout, pt: nat, repaired: bool): seq<nat>
    requires pt <= |lay.tables| == TableCount(|lay.data|)
  {
    if pt == 0 then []
    else FreeCalls(lay, pt - 1, repaired) + PagesOf(lay, pt - 1) + [LastFreed(lay, pt - 1, repaired)]
  }

  /** The state of the outer loop after pt tables. */
  ghost predicate Freed(phys0: Phys, free0: set<nat>, frees0: seq<nat>, phys: Phys, free: set<nat>, frees: seq<nat>,
                        lay: Layout, pt: nat, repaired: bool) {
    && LayoutOk(lay) && pt <= |lay.tables|
    && free == free0 + Returned(lay, pt, repaired)
    && frees == frees0 + FreeCalls(lay, pt, repaired)
    && SameOutside(phys0, phys, Elems(lay.tables[..pt]))
  }

  lemma FreedNothing(phys: Phys, free: set<nat>, frees: seq<nat>, dir: seq<Pte>, ptrs: seq<nat>, templ: seq<Pte>,
                     lay: Layout, repaired: bool)
    requires Maps(phys, dir, ptrs, templ, lay.data, lay.tables) && LayoutOk(lay)
    ensures Freed(phys, free, frees, phys, free, frees, lay, 0, repaired)
    ensures |ptrs| > |lay.tables|
  {
    Pointers(phys, dir, ptrs, templ, lay);
    ReturnedBounds(lay, repaired);
    OutsideNothing(phys);
    hide Maps, LayoutOk, Returned, SameOutside, FreeCalls;
    assert FreeCalls(lay, 0, repaired) == [] by {
      NoCalls(lay, repaired);
    }
  }

  lemma NoCalls(lay: Layout, repaired: bool)
    requires LayoutOk(lay)
    ensures FreeCalls(lay, 0, repaired) == [] && PagesUpTo(lay, 0) == []
  {
  }

  lemma FreedMemory(phys0: Phys, free0: set<nat>, frees0: seq<nat>, phys: Phys, free: set<nat>, frees: seq<nat>,
                    lay: Layout, pt: nat, repaired: bool)
    requires Freed(phys0, free0, frees0, phys, free, frees, lay, pt, repaired)
    ensures LayoutOk(lay) && pt <= |lay.tables| && SameOutside(phys0, phys, Elems(lay.tables[..pt]))
  {
  }

  lemma FreedNext(phys0: Phys, free0: set<nat>, frees0: seq<nat>, phys1: Phys, free1: set<nat>, frees1: seq<nat>,
                  phys2: Phys, free2: set<nat>, frees2: seq<nat>, lay: Layout, pt: nat, repaired: bool)
    requires Freed(phys0, free0, frees0, phys1, free1, frees1, lay, pt, repaired)
    requires pt < |lay.tables| && pt * PAGES_IN_PT < |lay.data|
    requires free2 == free1 + Elems(PagesOf(lay, pt)) + (if repaired then {lay.tables[pt]} else {})
    requires frees2 == frees1 + PagesOf(lay, pt) + [LastFreed(lay, pt, repaired)]
    requires SameOutside(phys1, phys2, {lay.tables[pt]})
    ensures Freed(phys0, free0, frees0, phys2, free2, frees2, lay, pt + 1, repaired)
  {
    hide Disjoint, TableCount, Returned, SameOutside, FreeCalls, PagesOf, LastFreed, Elems;
    ReturnedNext(lay, pt, repaired);
    CallsNext(lay, pt, repaired);
    OutsideNext(phys0, phys1, phys2, lay.tables, pt);
    Reassociate(free0, Returned(lay, pt, repaired), Elems(PagesOf(lay, pt)), if repaired then {lay.tables[pt]} else {});
  }

  lemma Reassociate(a: set<nat>, b: set<nat>, c: set<nat>, d: set<nat>)
    ensures a + b + c + d == a + (b + c + d)
  {
  }

  lemma CallsNext(lay: Layout, pt: nat, repaired: bool)
    requires LayoutOk(lay) && pt < |lay.tables| && pt * PAGES_IN_PT < |lay.data|
    ensures FreeCalls(lay, pt + 1, repaired)
            == FreeCalls(lay, pt, repaired) + PagesOf(lay, pt) + [LastFreed(lay, pt, repaired)]
  {
  }

  lemma FreedAll(phys0: Phys, free0: set<nat>, frees0: seq<nat>, phys: Phys, free: set<nat>, frees: seq<nat>,
                 dir: seq<Pte>, ptrs: seq<nat>, templ: seq<Pte>, lay: Layout, pt: nat, repaired: bool)
    requires Freed(phys0, free0, frees0, phys, free, frees, lay, pt, repaired)
    requires Maps(phys0, dir, ptrs, templ, lay.data, lay.tables) && pt < |ptrs| && ptrs[pt] == 0
    ensures LayoutOk(lay)
    ensures free == free0 + Elems(lay.data) + (if repaired then Elems(lay.tables) else {})
    ensures frees == frees0 + FreeCalls(lay, |lay.tables|, repaired)
    ensures SameOutside(phys0, phys, Elems(lay.tables))
  {
    Pointers(phys0, dir, ptrs, templ, lay);
    ReturnedBounds(lay, repaired);
    hide Maps, Returned, SameOutside, FreeCalls, Elems;
    assert pt == |lay.tables|;
  }

  /** What line 138 frees for each table, in order. */
  function LastFrees(lay: Layout, repaired: bool): (r: seq<nat>)
    requires LayoutOk(lay)
    ensures |r| == |lay.tables| && forall t | 0 <= t < |r| :: r[t] == LastFreed(lay, t, repaired)
  {
    seq(|lay.tables|, t requires 0 <= t < |lay.tables| => LastFreed(lay, t, repaired))
  }

  lemma PagesSplit(lay: Layout, pt: nat)
    requires LayoutOk(lay) && pt < |lay.tables|
    ensures pt * PAGES_IN_PT < |lay.data|
    ensures PagesUpTo(lay, pt + 1) == PagesUpTo(lay, pt) + PagesOf(lay, pt)
  {
  }

  /** The pages behind the first pt tables. */
  function PagesUpTo(lay: Layout, pt: nat): seq<nat> {
    lay.data[..Min(pt * PAGES_IN_PT, |lay.data|)]
  }

  /** The calls taken together: every page once, and what line 138 frees. */
  lemma {:induction false} CallsTogether(lay: Layout, pt: nat, repaired: bool)
    requires LayoutOk(lay) && pt <= |lay.tables|
    ensures multiset(FreeCalls(lay, pt, repaired))
            == multiset(PagesUpTo(lay, pt)) + multiset(LastFrees(lay, repaired)[..pt])
  {
    hide Disjoint, TableCount, FreeCalls, PagesOf, PagesUpTo, LastFreed, LastFrees;
    var last := LastFrees(lay, repaired);
    if pt == 0 {
      NoCalls(lay, repaired);
      assert last[..0] == [];
    } else {
      PagesSplit(lay, pt - 1);
      CallsNext(lay, pt - 1, repaired);
      CallsTogether(lay, pt - 1, repaired);
      assert last[..pt] == last[..pt - 1] + [LastFreed(lay, pt - 1, repaired)];
      OneTable(FreeCalls(lay, pt - 1, repaired), PagesUpTo(lay, pt - 1), last[..pt - 1],
               PagesOf(lay, pt - 1), LastFreed(lay, pt - 1, repaired));
    }
  }

  lemma OneTable<T>(calls: seq<T>, data: seq<T>, last: seq<T>, pages: seq<T>, x: T)
    requires multiset(calls) == multiset(data) + multiset(last)
    ensures multiset(calls + pages + [x]) == multiset(data + pages) + multiset(last + [x])
  {
  }

  /** How often task_free hands a frame to frame_free: every page once, the first page of every table twice and no
      table; repaired, every page and every table once. */
  lemma TimesFreed(lay: Layout, repaired: bool, p: nat, t: nat)
    requires LayoutOk(lay) && p < |lay.data| && t < |lay.tables|
    ensures var calls := multiset(FreeCalls(lay, |lay.tables|, repaired));
            && calls[lay.data[p]] == (if !repaired && p % PAGES_IN_PT == 0 then 2 else 1)
            && calls[lay.tables[t]] == (if repaired then 1 else 0)
  {
    var last := LastFrees(lay, repaired);
    var calls := multiset(FreeCalls(lay, |lay.tables|, repaired));
    CallsTogether(lay, |lay.tables|, repaired);
    assert PagesUpTo(lay, |lay.tables|) == lay.data && last[..|last|] == last;
    assert calls == multiset(lay.data) + multiset(last);
    LastOnce(lay, repaired, p, t);
    Once(lay.data, p);
    hide FreeCalls, LastFrees;
    assert lay.tables[t] !in lay.data;
  }

  lemma LastOnce(lay: Layout, repaired: bool, p: nat, t: nat)
    requires LayoutOk(lay) && p < |lay.data| && t < |lay.tables|
    ensures var last := multiset(LastFrees(lay, repaired));
            && last[lay.data[p]] == (if !repaired && p % PAGES_IN_PT == 0 then 1 else 0)
            && last[lay.tables[t]] == (if repaired then 1 else 0)
  {
    var last := LastFrees(lay, repaired);
    if repaired {
      Once(last, t);
      assert lay.data[p] !in last;
    } else {
      PagesSplit(lay, t);
      assert lay.tables[t] !in last;
      if p % PAGES_IN_PT == 0 {
        assert last[p / PAGES_IN_PT] == lay.data[p];
        Once(last, p / PAGES_IN_PT);
      } else {
        assert lay.data[p] !in last;
      }
    }
  }

  lemma {:induction false} Once<T>(s: seq<T>, i: nat)
    requires Distinct(s) && i < |s|
    ensures multiset(s)[s[i]] == 1
  {
    assert s == s[..i] + [s[i]] + s[i + 1..];
    assert s[i] !in s[..i] && s[i] !in s[i + 1..];
  }

  /** Freeing page tables, which come from the pool, leaves the kernel's memory alone. */
  lemma KernelKept(c: Config, phys0: Phys, phys: Phys, tables: seq<nat>, pt: nat)
    requires Untouched(c, phys0) && pt <= |tables| && SameOutside(phys0, phys, Elems(tables[..pt]))
    requires forall t | t in tables :: t in c.pool
    ensures Untouched(c, phys)
  {
  }

  lemma EntryHit(phys: Phys, dir: seq<Pte>, ptrs: seq<nat>, templ: seq<Pte>, lay: Layout, addr: Word)
    requires Maps(phys, dir, ptrs, templ, lay.data, lay.tables)
    ensures HitsEntry(lay, addr)
            <==> addr / PAGE_SIZE != 0 && addr / PAGE_SIZE * PAGE_SIZE in ptrs
                 && (addr % PAGE_SIZE % 4 == 0 || EntryPresent(phys, addr / PAGE_SIZE, addr % PAGE_SIZE))
  {
    var page, offset := addr / PAGE_SIZE, addr % PAGE_SIZE;
    if t :| 0 <= t < |lay.tables| && lay.tables[t] == page {
      assert ptrs[t] == page * PAGE_SIZE;
      assert IsTable(phys[page], lay.data, t);
      assert EntryPresent(phys, page, offset) <==> t * PAGES_IN_PT + offset / 4 < |lay.data|;
      assert forall u | 0 <= u < |lay.tables| && lay.tables[u] == page :: u == t;
      hide Maps, IsTable, EntryPresent;
    }
  }

  /** The frames that task_free has handed back after pt tables. */
  ghost function Returned(lay: Layout, pt: nat, repaired: bool): set<nat>
    requires pt <= |lay.tables|
  {
    Elems(lay.data[..Min(pt * PAGES_IN_PT, |lay.data|)]) + (if repaired then Elems(lay.tables[..pt]) else {})
  }

  lemma ReturnedBounds(lay: Layout, repaired: bool)
    requires |lay.data| <= |lay.tables| * PAGES_IN_PT
    ensures Returned(lay, 0, repaired) == {}
    ensures Returned(lay, |lay.tables|, repaired) == Elems(lay.data) + (if repaired then Elems(lay.tables) else {})
    ensures Elems(lay.tables[..0]) == {} && Elems(lay.tables[..|lay.tables|]) == Elems(lay.tables)
  {
    assert lay.data[..0] == [] && lay.tables[..0] == [];
    assert lay.data[..|lay.data|] == lay.data && lay.tables[..|lay.tables|] == lay.tables;
  }

  lemma ReturnedNext(lay: Layout, pt: nat, repaired: bool)
    requires pt < |lay.tables| && pt * PAGES_IN_PT < |lay.data|
    ensures Returned(lay, pt + 1, repaired)
            == Returned(lay, pt, repaired) + Elems(PagesOf(lay, pt)) + (if repaired then {lay.tables[pt]} else {})
  {
    SplitPages(lay.data, pt * PAGES_IN_PT);
    assert lay.tables[..pt + 1] == lay.tables[..pt] + [lay.tables[pt]];
  }

  /** Table number pt is still as it was when the loop reaches it, its entry 0 is present, and the kernel's memory is as
      it was. */
  lemma NotYetFreed(phys0: Phys, phys: Phys, dir: seq<Pte>, ptrs: seq<nat>, c: Config, lay: Layout, pt: nat)
    requires Maps(phys0, dir, ptrs, c.templ, lay.data, lay.tables) && LayoutOk(lay)
    requires pt <= |lay.tables| && ptrs[pt] != 0
    requires SameOutside(phys0, phys, Elems(lay.tables[..pt]))
    requires Untouched(c, phys0) && forall t | t in lay.tables :: t in c.pool && t < c.ramPages
    ensures pt < |lay.tables| && ptrs[pt] == lay.tables[pt] * PAGE_SIZE && pt * PAGES_IN_PT < |lay.data|
    ensures lay.tables[pt] in phys && IsTable(phys[lay.tables[pt]], lay.data, pt)
    ensures Untouched(c, phys) && lay.tables[pt] < c.ramPages && pt + 1 < |ptrs|
  {
    assert lay.tables[pt] !in lay.tables[..pt];
    assert lay.tables[pt] in lay.tables;
    KernelKept(c, phys0, phys, lay.tables, pt);
    hide Untouched;
  }

  lemma Pointers(phys: Phys, dir: seq<Pte>, ptrs: seq<nat>, templ: seq<Pte>, lay: Layout)
    requires Maps(phys, dir, ptrs, templ, lay.data, lay.tables)
    ensures |lay.tables| < |ptrs| && |lay.data| <= |lay.tables| * PAGES_IN_PT
    ensures forall t | 0 <= t < |ptrs| :: ptrs[t] != 0 <==> t < |lay.tables|
  {
  }

  lemma OutsideNothing(phys: Phys)
    ensures SameOutside(phys, phys, {})
  {
  }

  lemma OutsideNext(phys0: Phys, phys1: Phys, phys2: Phys, tables: seq<nat>, pt: nat)
    requires pt < |tables| && SameOutside(phys0, phys1, Elems(tables[..pt])) && SameOutside(phys1, phys2, {tables[pt]})
    ensures SameOutside(phys0, phys2, Elems(tables[..pt + 1]))
  {
    assert tables[..pt + 1] == tables[..pt] + [tables[pt]];
  }

  lemma SplitPages(data: seq<nat>, first: nat)
    requires first <= |data|
    ensures var next := Min(first + PAGES_IN_PT, |data|);
            Elems(data[..next]) == Elems(data[..first]) + Elems(data[first..next])
  {
    var next := Min(first + PAGES_IN_PT, |data|);
    assert data[..next] == data[..first] + data[first..next];
  }
}
