/** Tasks as a client may think of them: a stack of programs, each with a memory of its own, and a pool of frames.
    Class Kernel keeps all of this in shared frames behind page tables and is proved to refine it. */
module TaskSpec {
  import opened CTypes
  import opened Paging
  import opened ArgumentBlock

  const MAX_TASK_COUNT := 8
  const STACK_SIZE := 2 * 1024 * 1024
  const MAX_IMAGE := 0x4000_0000

  /** The frames a task holds: its pages in address order, then its page tables. */
  datatype Layout = Layout(data: seq<nat>, tables: seq<nat>)

  /** A live task: the bytes from TASK_VIRT_ADDR on, the initial stack pointer and the frames behind them. */
  datatype Task = Task(memory: seq<Byte>, esp: nat, lay: Layout)

  /** The last task of the stack is the one that runs; the others wait for it in task_exec. */
  datatype System = System(stack: seq<Task>, free: set<nat>)

  datatype Event =
    | Exec(image: seq<Byte>, argv: seq<seq<Byte>>, lay: Layout)
    | Return
    | Store(addr: Word, value: Byte)        // by an instruction of the running program
    | KernelStore(addr: Word, value: Byte)  // by the kernel, at an address of the program's choice

  /** The size passed to paging_alloc: the argument block counts twice. */
  function RequestedSize(image: seq<Byte>, argv: seq<seq<Byte>>): nat
    requires |argv| <= MAX_ARGS
  {
    |image| + 2 * |Block(argv)| + STACK_SIZE
  }

  function PagesFor(image: seq<Byte>, argv: seq<seq<Byte>>): nat
    requires |argv| <= MAX_ARGS
  {
    PageCount(RequestedSize(image, argv))
  }

  /** Image, the block of the staged arguments, then zeroed stack to the end of the last page. */
  function InitialMemory(image: seq<Byte>, argv: seq<seq<Byte>>): (r: seq<Byte>)
    requires IsArgv(argv)
    ensures |r| == PagesFor(image, argv) * PAGE_SIZE
  {
    BlockBounds(argv);
    image + Block(Staged(argv)) + Zeros(PagesFor(image, argv) * PAGE_SIZE - |image| - |Block(Staged(argv))|)
  }

  function NewTask(image: seq<Byte>, argv: seq<seq<Byte>>, lay: Layout): Task
    requires IsArgv(argv)
  {
    Task(InitialMemory(image, argv), TASK_VIRT_ADDR + |image| + |Block(argv)| + STACK_SIZE, lay)
  }

  ghost function FramesOf(lay: Layout): set<nat> {
    Elems(lay.data) + Elems(lay.tables)
  }

  lemma FramesGrow(lay: Layout, f: nat)
    ensures FramesOf(lay.(data := lay.data + [f])) == FramesOf(lay) + {f}
    ensures FramesOf(lay.(tables := lay.tables + [f])) == FramesOf(lay) + {f}
  {
  }

  function Layouts(stack: seq<Task>): (r: seq<Layout>)
    ensures |r| == |stack| && forall i | 0 <= i < |r| :: r[i] == stack[i].lay
  {
    seq(|stack|, i requires 0 <= i < |stack| => stack[i].lay)
  }

  ghost predicate Enabled(s: System, e: Event) {
    match e
    case Exec(image, argv, lay) =>
      && |s.stack| < MAX_TASK_COUNT
      && |image| <= MAX_IMAGE && IsArgv(argv)
      && |lay.data| == PagesFor(image, argv)
      && LayoutOk(lay) && FramesOf(lay) <= s.free
    case Return => s.stack != []
    case Store(_, _) => s.stack != []
    case KernelStore(_, _) => s.stack != []
  }

  /** The running task's own addresses. */
  predicate InTop(s: System, addr: Word)
    requires s.stack != []
  {
    0 <= addr - TASK_VIRT_ADDR < |s.stack[|s.stack| - 1].memory|
  }

  function StoreOwn(s: System, addr: Word, b: Byte): System
    requires s.stack != [] && InTop(s, addr)
  {
    var i := |s.stack| - 1;
    s.(stack := s.stack[i := s.stack[i].(memory := s.stack[i].memory[addr - TASK_VIRT_ADDR := b])])
  }

  /** A task after a byte was written into a frame: it changes where that frame is one of its pages. */
  function Poked(t: Task, frame: nat, offset: nat, b: Byte): Task {
    t.(memory := seq(|t.memory|, k requires 0 <= k < |t.memory| =>
      if k / PAGE_SIZE < |t.lay.data| && t.lay.data[k / PAGE_SIZE] == frame && k % PAGE_SIZE == offset then b
      else t.memory[k]))
  }

  function StoreFrame(s: System, frame: nat, offset: nat, b: Byte): System {
    s.(stack := seq(|s.stack|, i requires 0 <= i < |s.stack| => Poked(s.stack[i], frame, offset, b)))
  }

  /** One step. A return hands back the pages of the finished task and, only if repaired, its page tables as well. */
  ghost function Apply(s: System, e: Event, repaired: bool): System
    requires Enabled(s, e)
  {
    match e
    case Exec(image, argv, lay) => System(s.stack + [NewTask(image, argv, lay)], s.free - FramesOf(lay))
    case Return =>
      var top := s.stack[|s.stack| - 1].lay;
      System(s.stack[..|s.stack| - 1], s.free + Elems(top.data) + (if repaired then Elems(top.tables) else {}))
    case Store(addr, value) =>
      if InTop(s, addr) then StoreOwn(s, addr, value) else s
    case KernelStore(addr, value) =>
      // the kernel sees RAM under its physical addresses
      if InTop(s, addr) then StoreOwn(s, addr, value) else StoreFrame(s, addr / PAGE_SIZE, addr % PAGE_SIZE, value)
  }

  ghost predicate Legal(s: System, run: seq<Event>, repaired: bool)
    decreases |run|
  {
    run == [] || (Enabled(s, run[0]) && Legal(Apply(s, run[0], repaired), run[1..], repaired))
  }

  ghost function Final(s: System, run: seq<Event>, repaired: bool): System
    requires Legal(s, run, repaired)
    decreases |run|
  {
    if run == [] then s else Final(Apply(s, run[0], repaired), run[1..], repaired)
  }

  lemma {:induction false} Append(s: System, run: seq<Event>, more: seq<Event>, repaired: bool)
    requires Legal(s, run, repaired) && Legal(Final(s, run, repaired), more, repaired)
    ensures Legal(s, run + more, repaired)
    ensures Final(s, run + more, repaired) == Final(Final(s, run, repaired), more, repaired)
    decreases |run|
  {
    if run == [] {
      assert run + more == more;
    } else {
      assert (run + more)[1..] == run[1..] + more;
      Append(Apply(s, run[0], repaired), run[1..], more, repaired);
    }
  }

  // ----- what the steps do, byte by byte -----------------------------------------------------------

  /** Byte k of task i is what the kernel finds at the address while the last task runs: that task's memory starts at
      1 GB, and RAM lies below under its physical addresses. */
  predicate Lies(stack: seq<Task>, i: nat, k: nat, addr: Word)
    requires i < |stack|
  {
    var n := |stack| - 1;
    if 0 <= addr - 0x4000_0000 < |stack[n].memory| then i == n && k == addr - 0x4000_0000
    else k / 4096 < |stack[i].lay.data| && stack[i].lay.data[k / 4096] * 4096 + k % 4096 == addr
  }

  /** The named byte has the value and every other byte of every task, and all else, is as before. */
  ghost predicate ByteStored(before: seq<Task>, after: seq<Task>, addr: Word, b: Byte) {
    && |after| == |before|
    && forall i | 0 <= i < |before| ::
         && after[i] == before[i].(memory := after[i].memory) && |after[i].memory| == |before[i].memory|
         && forall k | 0 <= k < |before[i].memory| ::
              after[i].memory[k] == if Lies(before, i, k, addr) then b else before[i].memory[k]
  }

  lemma KernelStoreEffect(s: System, addr: Word, b: Byte, repaired: bool)
    requires s.stack != []
    ensures var s' := Apply(s, KernelStore(addr, b), repaired);
            ByteStored(s.stack, s'.stack, addr, b) && s'.free == s.free
  {
    if !InTop(s, addr) {
      forall i, k | 0 <= i < |s.stack| && 0 <= k < |s.stack[i].memory| && k / 4096 < |s.stack[i].lay.data|
        ensures s.stack[i].lay.data[k / 4096] * 4096 + k % 4096 == addr
                <==> s.stack[i].lay.data[k / 4096] == addr / PAGE_SIZE && k % PAGE_SIZE == addr % PAGE_SIZE
      {
        PageAndOffset(s.stack[i].lay.data[k / 4096], k % 4096, addr);
      }
    }
  }

  lemma PageAndOffset(page: nat, offset: nat, addr: nat)
    requires offset < 4096
    ensures page * 4096 + offset == addr <==> page == addr / 4096 && offset == addr % 4096
  {
  }

  /** A store by the program itself changes the byte at that address of its own memory, and nothing if there is none. */
  lemma StoreEffect(s: System, addr: Word, b: Byte, repaired: bool)
    requires s.stack != []
    ensures var s' := Apply(s, Store(addr, b), repaired);
            && s'.free == s.free
            && if 0 <= addr - 0x4000_0000 < |s.stack[|s.stack| - 1].memory| then ByteStored(s.stack, s'.stack, addr, b)
               else s' == s
  {
  }

  /** A return takes the last task off and frees its pages. */
  lemma ReturnEffect(s: System)
    requires s.stack != []
    ensures var s' := Apply(s, Return, false);
            var n := |s.stack| - 1;
            s'.stack == s.stack[..n] && s'.free == s.free + Elems(s.stack[n].lay.data)
  {
  }

  /** A start puts one task on, with the image, the staged arguments behind it, and frames that were free. */
  lemma ExecEffect(s: System, e: Event)
    requires e.Exec? && Enabled(s, e)
    ensures var s' := Apply(s, e, false);
            var n := |s.stack|;
            && |s'.stack| == n + 1 && s'.stack[..n] == s.stack && s'.free == s.free - FramesOf(s'.stack[n].lay)
            && e.image <= s'.stack[n].memory && |e.image| + 4 <= |s'.stack[n].memory|
            && ReadArgv(s'.stack[n].memory, |e.image|) == Staged(e.argv)
  {
    AddressSpace(e.image, e.argv, e.lay);
    BlockBounds(e.argv);
    hide ReadArgv, Staged, Block, PagesFor;
    var m := NewTask(e.image, e.argv, e.lay).memory;
    assert m[..|e.image|] == e.image;
  }

  // ----- frames ----------------------------------------------------------------------------------

  ghost predicate LayoutOk(lay: Layout) {
    Disjoint(lay.data, lay.tables) && lay.data != [] && |lay.tables| == TableCount(|lay.data|)
  }

  ghost function Owned(lays: seq<Layout>): set<nat> {
    if lays == [] then {} else Owned(lays[..|lays| - 1]) + FramesOf(lays[|lays| - 1])
  }

  /** Frames of distinct live tasks are disjoint and none of them is free. */
  ghost predicate Separated(lays: seq<Layout>, free: set<nat>) {
    lays == [] ||
    (var top := lays[|lays| - 1];
     && LayoutOk(top)
     && FramesOf(top) !! free
     && Separated(lays[..|lays| - 1], free + FramesOf(top)))
  }

  lemma {:induction false} SeparatedShrink(lays: seq<Layout>, free: set<nat>, free': set<nat>)
    requires Separated(lays, free) && free' <= free
    ensures Separated(lays, free')
  {
    if lays != [] {
      var top := lays[|lays| - 1];
      SeparatedShrink(lays[..|lays| - 1], free + FramesOf(top), free' + FramesOf(top));
    }
  }

  lemma SeparatedPush(lays: seq<Layout>, free: set<nat>, lay: Layout)
    requires Separated(lays, free) && LayoutOk(lay) && FramesOf(lay) <= free
    ensures Separated(lays + [lay], free - FramesOf(lay))
    ensures free - FramesOf(lay) + Owned(lays + [lay]) == free + Owned(lays)
  {
    assert (lays + [lay])[..|lays|] == lays;
    SeparatedShrink(lays, free, (free - FramesOf(lay)) + FramesOf(lay));
  }

  /** Taking the top layout off with freed, some of its frames, put back. */
  lemma SeparatedPop(lays: seq<Layout>, free: set<nat>, freed: set<nat>)
    requires Separated(lays, free) && lays != []
    requires freed <= FramesOf(lays[|lays| - 1])
    ensures var n := |lays| - 1;
            var lost := FramesOf(lays[n]) - freed;
            && Separated(lays[..n], free + freed)
            && lost !! free + freed + Owned(lays[..n])
            && free + freed + Owned(lays[..n]) + lost == free + Owned(lays)
  {
    var n := |lays| - 1;
    SeparatedShrink(lays[..n], free + FramesOf(lays[n]), free + freed);
    SeparatedOwned(lays[..n], free + FramesOf(lays[n]));
  }

  lemma {:induction false} SeparatedOwned(lays: seq<Layout>, free: set<nat>)
    requires Separated(lays, free)
    ensures Owned(lays) !! free
  {
    if lays != [] {
      SeparatedOwned(lays[..|lays| - 1], free + FramesOf(lays[|lays| - 1]));
    }
  }

  lemma {:induction false} SeparatedMember(lays: seq<Layout>, free: set<nat>, i: nat)
    requires Separated(lays, free) && i < |lays|
    ensures FramesOf(lays[i]) !! free && FramesOf(lays[i]) <= Owned(lays) && LayoutOk(lays[i])
  {
    var n := |lays| - 1;
    if i < n {
      SeparatedMember(lays[..n], free + FramesOf(lays[n]), i);
    }
  }

  /** What Separated means for any two live tasks. */
  lemma {:induction false} SeparatedPairwise(lays: seq<Layout>, free: set<nat>, i: nat, j: nat)
    requires Separated(lays, free) && i < j < |lays|
    ensures FramesOf(lays[i]) !! FramesOf(lays[j])
  {
    var n := |lays| - 1;
    if j < n {
      SeparatedPairwise(lays[..n], free + FramesOf(lays[n]), i, j);
    } else {
      assert lays[..n][i] == lays[i];
      SeparatedMember(lays[..n], free + FramesOf(lays[n]), i);
    }
  }

  /** The frames that a step makes unreachable. */
  ghost function Loss(s: System, e: Event, repaired: bool): set<nat>
    requires Enabled(s, e)
  {
    if e.Return? && !repaired then Elems(s.stack[|s.stack| - 1].lay.tables) else {}
  }

  lemma LossCount(s: System, e: Event, repaired: bool)
    requires Invariant(s) && Enabled(s, e)
    ensures |Loss(s, e, repaired)| == if e.Return? && !repaired then |s.stack[|s.stack| - 1].lay.tables| else 0
  {
    if e.Return? {
      DistinctCount(s.stack[|s.stack| - 1].lay.tables);
    }
  }

  ghost predicate Invariant(s: System) {
    && Separated(Layouts(s.stack), s.free)
    && forall t | t in s.stack :: |t.memory| == |t.lay.data| * PAGE_SIZE
  }

  /** Every frame that is free or held by a live task. */
  ghost function InUse(s: System): set<nat> {
    s.free + Owned(Layouts(s.stack))
  }

  /** A step moves frames between the pool, the live tasks and the leak, and loses none. */
  lemma StepConserves(s: System, e: Event, repaired: bool)
    requires Invariant(s) && Enabled(s, e)
    ensures var s' := Apply(s, e, repaired);
            && Invariant(s')
            && Loss(s, e, repaired) !! InUse(s') && InUse(s') + Loss(s, e, repaired) == InUse(s)
  {
    hide *;
    match e
    case Exec(_, _, _) => ExecConserves(s, e, repaired);
    case Return => ReturnConserves(s, repaired);
    case _ => StoreConserves(s, e, repaired);
  }

  lemma ExecConserves(s: System, e: Event, repaired: bool)
    requires Invariant(s) && e.Exec? && Enabled(s, e)
    ensures var s' := Apply(s, e, repaired);
            && Invariant(s')
            && Loss(s, e, repaired) !! InUse(s') && InUse(s') + Loss(s, e, repaired) == InUse(s)
  {
    SeparatedPush(Layouts(s.stack), s.free, e.lay);
    assert Layouts(Apply(s, e, repaired).stack) == Layouts(s.stack) + [e.lay];
  }

  lemma StoreConserves(s: System, e: Event, repaired: bool)
    requires Invariant(s) && (e.Store? || e.KernelStore?) && Enabled(s, e)
    ensures var s' := Apply(s, e, repaired);
            && Invariant(s')
            && Loss(s, e, repaired) !! InUse(s') && InUse(s') + Loss(s, e, repaired) == InUse(s)
  {
    assert Layouts(Apply(s, e, repaired).stack) == Layouts(s.stack);
  }

  lemma ReturnConserves(s: System, repaired: bool)
    requires Invariant(s) && Enabled(s, Return)
    ensures var s' := Apply(s, Return, repaired);
            && Invariant(s')
            && Loss(s, Return, repaired) !! InUse(s') && InUse(s') + Loss(s, Return, repaired) == InUse(s)
  {
    var s' := Apply(s, Return, repaired);
    var lays, n := Layouts(s.stack), |s.stack| - 1;
    var data, tables := Elems(lays[n].data), Elems(lays[n].tables);
    var freed := data + (if repaired then tables else {});
    SeparatedPop(lays, s.free, freed);
    assert Layouts(s'.stack) == lays[..n];
    assert s'.free == s.free + freed;
    assert data !! tables;
    assert FramesOf(lays[n]) - freed == Loss(s, Return, repaired);
  }

  // ----- runs ------------------------------------------------------------------------------------

  function Execs(run: seq<Event>): nat {
    if run == [] then 0 else (if run[0].Exec? then 1 else 0) + Execs(run[1..])
  }

  function Returns(run: seq<Event>): nat {
    if run == [] then 0 else (if run[0].Return? then 1 else 0) + Returns(run[1..])
  }

  /** The page tables of the tasks that returned during the run. */
  ghost function Leaked(s: System, run: seq<Event>, repaired: bool): set<nat>
    requires Legal(s, run, repaired)
    decreases |run|
  {
    if run == [] then {} else Loss(s, run[0], repaired) + Leaked(Apply(s, run[0], repaired), run[1..], repaired)
  }

  ghost function TablesOfReturned(s: System, run: seq<Event>, repaired: bool): nat
    requires Legal(s, run, repaired)
    decreases |run|
  {
    if run == [] then 0 else
      (if run[0].Return? then |s.stack[|s.stack| - 1].lay.tables| else 0)
      + TablesOfReturned(Apply(s, run[0], repaired), run[1..], repaired)
  }

  /** At the end of every run each frame is free, held by exactly one live task, or lost as a page table of a task
      that returned; the loss is exactly those page tables, and nothing is lost by the repaired return. */
  lemma {:induction false} FrameAccounting(s: System, run: seq<Event>, repaired: bool)
    requires Invariant(s) && Legal(s, run, repaired)
    ensures var f := Final(s, run, repaired);
            var leak := Leaked(s, run, repaired);
            && Invariant(f)
            && leak !! InUse(f) && InUse(f) + leak == InUse(s)
            && |leak| == if repaired then 0 else TablesOfReturned(s, run, repaired)
    decreases |run|
  {
    hide Invariant, InUse, Loss, Apply, Enabled;
    if run != [] {
      var s' := Apply(s, run[0], repaired);
      StepConserves(s, run[0], repaired);
      FrameAccounting(s', run[1..], repaired);
      SumOfLosses(InUse(s), InUse(s'), InUse(Final(s, run, repaired)), Loss(s, run[0], repaired),
                  Leaked(s', run[1..], repaired));
      LossCount(s, run[0], repaired);
    }
  }

  lemma SumOfLosses(u0: set<nat>, u1: set<nat>, u2: set<nat>, lost1: set<nat>, lost2: set<nat>)
    requires lost1 !! u1 && u1 + lost1 == u0
    requires lost2 !! u2 && u2 + lost2 == u1
    ensures lost1 + lost2 !! u2 && u2 + (lost1 + lost2) == u0
    ensures |lost1 + lost2| == |lost1| + |lost2|
  {
    assert lost1 !! lost2;
  }

  function HeldFrames(lays: seq<Layout>): nat {
    if lays == [] then 0
    else HeldFrames(lays[..|lays| - 1]) + |lays[|lays| - 1].data| + |lays[|lays| - 1].tables|
  }

  lemma {:induction false} OwnedCount(lays: seq<Layout>, free: set<nat>)
    requires Separated(lays, free)
    ensures |Owned(lays)| == HeldFrames(lays)
  {
    if lays != [] {
      var n := |lays| - 1;
      OwnedCount(lays[..n], free + FramesOf(lays[n]));
      SeparatedOwned(lays[..n], free + FramesOf(lays[n]));
      DistinctCount(lays[n].data);
      DistinctCount(lays[n].tables);
      assert Elems(lays[n].data) !! Elems(lays[n].tables);
      assert |FramesOf(lays[n])| == |lays[n].data| + |lays[n].tables|;
    }
  }

  lemma InUseCount(s: System)
    requires Invariant(s)
    ensures |InUse(s)| == |s.free| + HeldFrames(Layouts(s.stack))
  {
    OwnedCount(Layouts(s.stack), s.free);
    SeparatedOwned(Layouts(s.stack), s.free);
  }

  /** The free frames are counted down by what the live tasks hold and by the tables of the tasks that returned. */
  lemma FreeCount(s: System, run: seq<Event>)
    requires Invariant(s) && Legal(s, run, false)
    ensures var f := Final(s, run, false);
            |f.free| + HeldFrames(Layouts(f.stack)) + TablesOfReturned(s, run, false)
            == |s.free| + HeldFrames(Layouts(s.stack))
  {
    FrameAccounting(s, run, false);
    InUseCount(s);
    InUseCount(Final(s, run, false));
  }

  lemma {:induction false} DepthCount(s: System, run: seq<Event>, repaired: bool)
    requires |s.stack| <= MAX_TASK_COUNT && Legal(s, run, repaired)
    ensures |Final(s, run, repaired).stack| + Returns(run) == |s.stack| + Execs(run)
    ensures |Final(s, run, repaired).stack| <= MAX_TASK_COUNT
    decreases |run|
  {
    if run != [] {
      DepthCount(Apply(s, run[0], repaired), run[1..], repaired);
    }
  }

  lemma {:induction false} EveryReturnLosesATable(s: System, run: seq<Event>)
    requires Invariant(s) && Legal(s, run, false)
    ensures Returns(run) <= TablesOfReturned(s, run, false)
    decreases |run|
  {
    if run != [] {
      StepConserves(s, run[0], false);
      EveryReturnLosesATable(Apply(s, run[0], false), run[1..]);
    }
  }

  /** Because of the leak, a pool of n frames lets at most n programs ever finish. */
  lemma FinitelyManyPrograms(s: System, run: seq<Event>)
    requires s.stack == [] && Legal(s, run, false)
    ensures Returns(run) <= |s.free| - |Final(s, run, false).free|
  {
    FreeCount(s, run);
    EveryReturnLosesATable(s, run);
  }

  // ----- isolation -------------------------------------------------------------------------------

  /** Task number d is alive during the whole run, and what runs is that task or programs started above it. */
  ghost predicate RunsAbove(s: System, run: seq<Event>, d: nat, repaired: bool)
    requires Legal(s, run, repaired)
    decreases |run|
  {
    && |s.stack| > d
    && (run == [] ||
        (&& (run[0].Return? ==> |s.stack| > d + 1)
         && (run[0].KernelStore? ==> Spares(s, run[0].addr, d))
         && RunsAbove(Apply(s, run[0], repaired), run[1..], d, repaired)))
  }

  /** What this asks of a run, step by step: after every part of it more than d tasks are alive, and every store by the
      kernel spares the tasks below d in the state in which it is made. */
  lemma {:induction false} RunsAboveMeans(s: System, run: seq<Event>, d: nat, repaired: bool)
    requires Legal(s, run, repaired)
    ensures RunsAbove(s, run, d, repaired)
            <==> forall k | 0 <= k <= |run| :: StaysAbove(s, run, d, repaired, k)
    decreases |run|
  {
    hide Apply, Enabled, Spares;
    if run == [] {
      assert StaysAbove(s, run, d, repaired, 0) <==> |s.stack| > d;
    } else {
      var s' := Apply(s, run[0], repaired);
      RunsAboveMeans(s', run[1..], d, repaired);
      forall k | 0 < k <= |run|
        ensures StaysAbove(s, run, d, repaired, k) <==> StaysAbove(s', run[1..], d, repaired, k - 1)
      {
        OneEarlier(s, run, repaired, k);
      }
      FirstStays(s, run, d, repaired);
      FirstStays(s', run[1..], d, repaired);
      DepthStep(s, run[0], repaired);
      assert forall j | 0 <= j <= |run| - 1 ::
               StaysAbove(s', run[1..], d, repaired, j) <==> StaysAbove(s, run, d, repaired, j + 1);
    }
  }

  /** After k steps more than d tasks are alive, and the next step, if the kernel stores in it, spares those below. */
  ghost predicate StaysAbove(s: System, run: seq<Event>, d: nat, repaired: bool, k: nat)
    requires Legal(s, run, repaired) && k <= |run|
  {
    LegalPart(s, run, repaired, k);
    var now := Final(s, run[..k], repaired);
    |now.stack| > d && (k < |run| && run[k].KernelStore? ==> Spares(now, run[k].addr, d))
  }

  lemma {:induction false} LegalPart(s: System, run: seq<Event>, repaired: bool, k: nat)
    requires Legal(s, run, repaired) && k <= |run|
    ensures Legal(s, run[..k], repaired)
    decreases |run|
  {
    hide Apply, Enabled;
    if k > 0 {
      assert run[..k][1..] == run[1..][..k - 1];
      LegalPart(Apply(s, run[0], repaired), run[1..], repaired, k - 1);
    }
  }

  lemma OneEarlier(s: System, run: seq<Event>, repaired: bool, k: nat)
    requires Legal(s, run, repaired) && 0 < k <= |run|
    ensures var s' := Apply(s, run[0], repaired);
            && Legal(s', run[1..], repaired) && Legal(s, run[..k], repaired) && Legal(s', run[1..][..k - 1], repaired)
            && Final(s, run[..k], repaired) == Final(s', run[1..][..k - 1], repaired)
            && (k < |run| ==> run[k] == run[1..][k - 1])
  {
    hide Apply, Enabled;
    LegalPart(s, run, repaired, k);
    LegalPart(Apply(s, run[0], repaired), run[1..], repaired, k - 1);
    assert run[..k][1..] == run[1..][..k - 1];
  }

  lemma FirstStays(s: System, run: seq<Event>, d: nat, repaired: bool)
    requires Legal(s, run, repaired)
    ensures StaysAbove(s, run, d, repaired, 0)
            <==> |s.stack| > d && (run != [] && run[0].KernelStore? ==> Spares(s, run[0].addr, d))
  {
    hide Apply, Enabled, Spares;
    assert run[..0] == [];
  }

  lemma DepthStep(s: System, e: Event, repaired: bool)
    requires Enabled(s, e)
    ensures |Apply(s, e, repaired).stack| == |s.stack| + (if e.Exec? then 1 else if e.Return? then -1 else 0)
    ensures e.KernelStore? || e.Return? ==> s.stack != []
  {
  }

  /** The address is the running task's own or lies in no page of the tasks below number d. */
  ghost predicate Spares(s: System, addr: Word, d: nat)
    requires d <= |s.stack| && s.stack != []
  {
    InTop(s, addr) || forall i | 0 <= i < d :: addr / PAGE_SIZE !in s.stack[i].lay.data
  }

  /** The step leaves the tasks below number d as they are. */
  ghost predicate LeavesBelow(s: System, e: Event, d: nat, repaired: bool)
    requires Enabled(s, e) && d < |s.stack|
  {
    var s' := Apply(s, e, repaired);
    |s'.stack| >= d && s'.stack[..d] == s.stack[..d]
  }

  /** A store by the kernel leaves the tasks below number d alone, whatever the value, if and only if its address spares
      them. */
  lemma SparesExactly(s: System, addr: Word, d: nat, repaired: bool)
    requires Invariant(s) && d < |s.stack|
    ensures (forall b: Byte :: LeavesBelow(s, KernelStore(addr, b), d, repaired)) <==> Spares(s, addr, d)
  {
    var frame, offset := addr / PAGE_SIZE, addr % PAGE_SIZE;
    if Spares(s, addr, d) {
      forall b: Byte, i | 0 <= i < d
        ensures Apply(s, KernelStore(addr, b), repaired).stack[i] == s.stack[i]
      {
        if !InTop(s, addr) {
          SparedTask(s.stack[i], frame, offset, b);
        }
      }
    } else {
      var i :| 0 <= i < d && frame in s.stack[i].lay.data;
      var p :| 0 <= p < |s.stack[i].lay.data| && s.stack[i].lay.data[p] == frame;
      assert s.stack[i] in s.stack;
      var b: Byte := HitTask(s.stack[i], p, offset);
      var s' := Apply(s, KernelStore(addr, b), repaired);
      assert s'.stack[..d][i] != s.stack[..d][i];
      assert !LeavesBelow(s, KernelStore(addr, b), d, repaired);
    }
  }

  lemma SparedTask(t: Task, frame: nat, offset: nat, b: Byte)
    requires frame !in t.lay.data
    ensures Poked(t, frame, offset, b) == t
  {
    assert Poked(t, frame, offset, b).memory == t.memory;
  }

  /** A value that shows. */
  lemma HitTask(t: Task, p: nat, offset: nat) returns (b: Byte)
    requires p < |t.lay.data| && offset < PAGE_SIZE && |t.memory| == |t.lay.data| * PAGE_SIZE
    ensures Poked(t, t.lay.data[p], offset, b) != t
  {
    var k := p * PAGE_SIZE + offset;
    b := if t.memory[k] == 0 then 1 else 0;
    assert k / PAGE_SIZE == p && k % PAGE_SIZE == offset;
    assert Poked(t, t.lay.data[p], offset, b).memory[k] == b;
  }

  /** Every byte of every task has an address under which the kernel changes just that byte of just that task. */
  lemma KernelReaches(s: System, i: nat, k: nat, b: Byte, repaired: bool)
    requires Invariant(s) && i < |s.stack| && k < |s.stack[i].memory|
    requires s.stack[i].lay.data[k / PAGE_SIZE] < TASK_FIRST_PAGE
    ensures var t := s.stack[i];
            var addr: Word := t.lay.data[k / PAGE_SIZE] * PAGE_SIZE + k % PAGE_SIZE;
            Apply(s, KernelStore(addr, b), repaired) == s.(stack := s.stack[i := t.(memory := t.memory[k := b])])
  {
    var t := s.stack[i];
    var frame, offset := t.lay.data[k / PAGE_SIZE], k % PAGE_SIZE;
    var addr: Word := frame * PAGE_SIZE + offset;
    assert addr / PAGE_SIZE == frame && addr % PAGE_SIZE == offset;
    forall j | 0 <= j < |s.stack|
      ensures Poked(s.stack[j], frame, offset, b) == if j == i then t.(memory := t.memory[k := b]) else s.stack[j]
    {
      OnlyOwner(s, i, k / PAGE_SIZE, j);
      if j == i {
        OnlyByte(t, k, b);
      } else {
        SparedTask(s.stack[j], frame, offset, b);
      }
    }
  }

  lemma OnlyByte(t: Task, k: nat, b: Byte)
    requires Distinct(t.lay.data) && |t.memory| == |t.lay.data| * PAGE_SIZE && k < |t.memory|
    ensures Poked(t, t.lay.data[k / PAGE_SIZE], k % PAGE_SIZE, b) == t.(memory := t.memory[k := b])
  {
    var t' := Poked(t, t.lay.data[k / PAGE_SIZE], k % PAGE_SIZE, b);
    forall m | 0 <= m < |t.memory|
      ensures t'.memory[m] == t.memory[k := b][m]
    {
      if m / PAGE_SIZE == k / PAGE_SIZE && m % PAGE_SIZE == k % PAGE_SIZE {
        assert m == k;
      }
    }
  }

  /** A page of one task is no page of another one and no page table. */
  lemma OnlyOwner(s: System, i: nat, p: nat, j: nat)
    requires Invariant(s) && i < |s.stack| && j < |s.stack| && p < |s.stack[i].lay.data|
    ensures s.stack[i].lay.data[p] !in s.stack[j].lay.tables
    ensures j != i ==> s.stack[i].lay.data[p] !in s.stack[j].lay.data
    ensures Distinct(s.stack[i].lay.data)
  {
    var lays := Layouts(s.stack);
    assert lays[i].data[p] in FramesOf(lays[i]);
    SeparatedMember(lays, s.free, i);
    if i < j {
      SeparatedPairwise(lays, s.free, i, j);
    } else if j < i {
      SeparatedPairwise(lays, s.free, j, i);
    }
  }

  /** Whatever programs are started, stored to and finished above them, waiting tasks find every byte as they left it,
      however often slots and frames are reused in between. Of the stores that the kernel makes for the programs, this
      takes in those that spare the waiting tasks, which by SparesExactly is as far as it can go. */
  lemma {:induction false} Isolation(s: System, run: seq<Event>, d: nat, repaired: bool)
    requires Legal(s, run, repaired) && RunsAbove(s, run, d, repaired)
    ensures var f := Final(s, run, repaired);
            && |f.stack| > d
            && f.stack[..d] == s.stack[..d]
            && f.stack[d] == s.stack[d].(memory := f.stack[d].memory)
    decreases |run|
  {
    if run != [] {
      StepIsolates(s, run[0], d, repaired);
      hide Apply, Enabled, Spares;
      Isolation(Apply(s, run[0], repaired), run[1..], d, repaired);
    }
  }

  lemma StepIsolates(s: System, e: Event, d: nat, repaired: bool)
    requires Enabled(s, e) && d < |s.stack|
    requires (e.Return? ==> |s.stack| > d + 1) && (e.KernelStore? ==> Spares(s, e.addr, d))
    ensures var s' := Apply(s, e, repaired);
            && |s'.stack| > d
            && s'.stack[..d] == s.stack[..d]
            && s'.stack[d] == s.stack[d].(memory := s'.stack[d].memory)
  {
    if e.KernelStore? && !InTop(s, e.addr) {
      forall i | 0 <= i < d
        ensures Apply(s, e, repaired).stack[i] == s.stack[i]
      {
        SparedTask(s.stack[i], e.addr / PAGE_SIZE, e.addr % PAGE_SIZE, e.value);
      }
    }
  }

  lemma {:induction false} TablesAppend(s: System, run: seq<Event>, more: seq<Event>, repaired: bool)
    requires Legal(s, run, repaired) && Legal(Final(s, run, repaired), more, repaired)
    requires Legal(s, run + more, repaired)
    ensures TablesOfReturned(s, run + more, repaired)
         == TablesOfReturned(s, run, repaired) + TablesOfReturned(Final(s, run, repaired), more, repaired)
    decreases |run|
  {
    if run == [] {
      assert run + more == more;
    } else {
      assert (run + more)[1..] == run[1..] + more;
      TablesAppend(Apply(s, run[0], repaired), run[1..], more, repaired);
    }
  }

  /** task_exec as one call, with everything the program does in between, nested task_exec calls included: the callers
      are untouched. The pool comes back short by the page tables of all programs that ran, so it never comes back
      complete; with the repaired return it always does. */
  lemma CallRestores(s: System, e: Event, body: seq<Event>, repaired: bool)
    requires Invariant(s) && e.Exec?
    requires Enabled(s, e) && Legal(Apply(s, e, repaired), body, repaired)
    requires RunsAbove(Apply(s, e, repaired), body, |s.stack|, repaired)
    requires |Final(Apply(s, e, repaired), body, repaired).stack| == |s.stack| + 1
    ensures var call := [e] + body + [Return];
            && Legal(s, call, repaired)
            && var f := Final(s, call, repaired);
            && f.stack == s.stack
            && Leaked(s, call, repaired) <= s.free && f.free == s.free - Leaked(s, call, repaired)
            && (repaired ==> f.free == s.free)
            && (!repaired ==> |s.free| - |f.free| == TablesOfReturned(s, call, repaired)
                                == |e.lay.tables| + TablesOfReturned(Apply(s, e, repaired), body, repaired)
                              && |e.lay.tables| == TableCount(PagesFor(e.image, e.argv)) >= 1)
  {
    CallUnfolds(s, e, body, repaired);
    SameStackSameFrames(s, [e] + body + [Return], repaired);
  }

  lemma CallUnfolds(s: System, e: Event, body: seq<Event>, repaired: bool)
    requires e.Exec? && Enabled(s, e) && Legal(Apply(s, e, repaired), body, repaired)
    requires RunsAbove(Apply(s, e, repaired), body, |s.stack|, repaired)
    requires |Final(Apply(s, e, repaired), body, repaired).stack| == |s.stack| + 1
    ensures var call := [e] + body + [Return];
            && Legal(s, call, repaired)
            && Final(s, call, repaired).stack == s.stack
            && TablesOfReturned(s, call, repaired)
               == |e.lay.tables| + TablesOfReturned(Apply(s, e, repaired), body, repaired)
  {
    var s1 := Apply(s, e, repaired);
    var s2 := Final(s1, body, repaired);
    var tail := body + [Return];
    Isolation(s1, body, |s.stack|, repaired);
    assert s1.stack[..|s.stack|] == s.stack;
    LastReturn(s2, repaired);
    Append(s1, body, [Return], repaired);
    TablesAppend(s1, body, [Return], repaired);
    assert [e] + body + [Return] == [e] + tail;
    assert ([e] + tail)[1..] == tail;
  }

  lemma LastReturn(s: System, repaired: bool)
    requires s.stack != []
    ensures Legal(s, [Return], repaired)
    ensures Final(s, [Return], repaired) == Apply(s, Return, repaired)
    ensures TablesOfReturned(s, [Return], repaired) == |s.stack[|s.stack| - 1].lay.tables|
  {
    assert [Return][1..] == [];
  }

  lemma SameStackSameFrames(s: System, run: seq<Event>, repaired: bool)
    requires Invariant(s) && Legal(s, run, repaired)
    requires Final(s, run, repaired).stack == s.stack
    ensures var f := Final(s, run, repaired);
            var leak := Leaked(s, run, repaired);
            && leak <= s.free && f.free == s.free - leak
            && (repaired ==> f.free == s.free)
            && |s.free| - |f.free| == |leak| == if repaired then 0 else TablesOfReturned(s, run, repaired)
  {
    FrameAccounting(s, run, repaired);
    SeparatedOwned(Layouts(s.stack), s.free);
    SeparatedOwned(Layouts(s.stack), Final(s, run, repaired).free);
    Remainder(s.free, Owned(Layouts(s.stack)), Final(s, run, repaired).free, Leaked(s, run, repaired));
  }

  lemma Remainder(free: set<nat>, owned: set<nat>, free': set<nat>, leak: set<nat>)
    requires owned !! free && owned !! free' && leak !! free' + owned
    requires free' + owned + leak == free + owned
    ensures free' + leak == free && leak <= free && free' == free - leak && |free| - |free'| == |leak|
  {
    forall x
      ensures x in free <==> x in free' + leak
    {
      assert x in free + owned <==> x in free' + owned + leak;
    }
    assert free == free' + leak;
  }

  /** Address space of a new task: image, argument block and 2 MB of stack lie one behind the other from TASK_VIRT_ADDR
      on, and the mapped pages cover all of it up to the initial stack pointer. What the program reads as its arguments
      are the staged ones: the caller's, if all but the last have at most 49 characters, and else as StagedExactly
      says. */
  lemma AddressSpace(image: seq<Byte>, argv: seq<seq<Byte>>, lay: Layout)
    requires IsArgv(argv)
    ensures var t := NewTask(image, argv, lay);
            var block := Block(Staged(argv));
            && t.memory[..|image|] == image
            && |image| + |block| <= |t.memory| && t.memory[|image|..|image| + |block|] == block
            && ReadArgv(t.memory, |image|) == Staged(argv)
            && ((forall i | 0 <= i < |argv| - 1 :: |argv[i]| < 50) ==> ReadArgv(t.memory, |image|) == argv)
            && t.esp == 0x4000_0000 + |image| + |Block(argv)| + 0x20_0000
            && 0x4000_0000 + |image| + |block| <= t.esp && t.esp - 0x4000_0000 <= |t.memory|
            && |t.memory| % 4096 == 0 && |t.memory| < |image| + 2 * |Block(argv)| + 0x20_0000 + 4096
            && (forall k | |image| + |block| <= k < |t.memory| :: t.memory[k] == 0)
  {
    hide Block, ReadArgv, Staged, IsArgv, PageCount, PagesFor, InitialMemory;
    MemoryParts(image, argv);
    var block, memory := Block(Staged(argv)), InitialMemory(image, argv);
    var rest := memory[|image| + |block|..];
    assert memory == image + block + rest;
    assert forall k | |image| + |block| <= k < |memory| :: memory[k] == rest[k - |image| - |block|];
    BlockRoundTrip(image, Staged(argv), rest);
    ArgumentsKept(argv);
  }

  lemma ArgumentsKept(argv: seq<seq<Byte>>)
    ensures (forall i | 0 <= i < |argv| - 1 :: |argv[i]| < 50) ==> Staged(argv) == argv
  {
    StagedExactly(argv);
    hide Staged;
  }

  /** The sizes of the parts, and what they are. */
  lemma MemoryParts(image: seq<Byte>, argv: seq<seq<Byte>>)
    requires IsArgv(argv)
    ensures |argv| <= MAX_ARGS && |Staged(argv)| <= MAX_ARGS && AreTexts(Staged(argv))
    ensures var memory := InitialMemory(image, argv);
            var block := Block(Staged(argv));
            && |image| + |block| <= |memory|
            && memory == image + block + Zeros(|memory| - |image| - |block|)
            && |block| <= 0x20_0000 && |memory| % 4096 == 0
            && |image| + 2 * |Block(argv)| + 0x20_0000 <= |memory| < |image| + 2 * |Block(argv)| + 0x20_0000 + 4096
  {
    BlockBounds(argv);
    hide Block, Staged, IsText;
    Counted(RequestedSize(image, argv));
  }
}
