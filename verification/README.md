# YoctOS, verified

A Dafny model of the parts of the YoctOS teaching kernel where most can go wrong, with proofs over all inputs and all
runs. `dafny verify dfyconfig.toml` checks everything.

**Tasks** (`Paging`, `Gdt`, `ArgumentBlock`, `Staging`, `TaskSpec`, `TaskLayout`, `KernelState`, `Kernel`, `Boot`).
`TaskSpec` says what a client may believe: tasks form a stack, each has a contiguous memory of its own, and there is a
pool of free frames. `Kernel` is the code: the table of eight slots, the GDT, the counter, page directories in the
slots, page tables and pages in one shared physical memory. The accesses of programs, of `task_load`, of `task_free`,
of system calls and of `exception_handler` go through the two-level walk of the page directory that is loaded at that
moment; only the stand-in for `paging_alloc` reaches page tables by frame number. Each step of the code is proved to
be the corresponding step of `TaskSpec`, so what is proved about runs there (isolation of waiting tasks, frame
accounting, nested calls, depth) holds of the kernel. What a request achieves is also stated on the tasks and the pool
themselves: a start puts one program on, a return takes one off, a store changes the named byte
(`KernelTasks.Kernel.Serve`), and a program that starts and ends costs the pool just its page tables
(`KernelTasks.Kernel.StartAndFinish`). `TaskLayout` derives the places of the fields of `task_t` from their sizes.
`Boot` gives, for every size of RAM, a machine that meets the assumptions.

Isolation has a limit, and the limit is exact. What programs store themselves can never reach a waiting task
(`KernelState.StoreAnywhere`). The kernel stores for them in two ways, and the runs include both.

System calls 2, 3 and 5 store in kernel mode at an address that the program passes. RAM lies there under its physical
addresses, so every byte of every waiting task has an address at which such a call changes it
(`KernelTasks.Kernel.EveryByteInReach`). Where the loaded page directory maps nothing, the store itself raises a page
fault, and `exception_handler` writes `0xCF` over the instruction that stored, which is kernel code; a system call
that only loads from there, such as 0 and 7, has the same effect (`KernelTasks.Kernel.HarmlessLoads`). Waiting tasks
and the kernel stay as they are, for every value, if and only if the address is mapped, is not the kernel's, is no
byte that counts in a live page table, and is the program's own or in no page of a waiting task
(`KernelTasks.Kernel.HarmlessStores`); what is mapped is just RAM, the program's own pages and what the template maps
beyond RAM (`KernelState.WalkAnywhere`).

An exception of a program makes `exception_handler` store `0xCF` at the program's `eip`. That is at home whenever the
instruction could be fetched (`KernelTasks.Kernel.ExceptionsAtHome`); a program that jumps elsewhere decides where the
byte goes, and the same condition applies. `TaskSpec.Isolation` and `TaskSpec.CallRestores` hold for the runs whose
kernel stores spare the waiting tasks.

**Formatter** (`Numbers`, `Format`). `vsnprintf` against an unbounded renderer, with the exact condition under which
it returns; printing and parsing of 32-bit numbers as inverses.

**Strings, editor, shell** (`CTypes`, `StringOrder`, `Strings`, `Console`, `Memory`). In-place buffer code against
functions on texts.

**Entry stubs** (`EntryStubs`, `Interrupts`, `Idt`, `Syscalls`, `InterruptedStubs`, `TaskContexts`). The assembly as
programs of a small stack machine with byte memory; contexts survive any nesting of exceptions and interrupts, and a
system call is a call, at any stack pointer, aligned or not, interrupted between any two of its instructions. Besides
their own frames, the handlers of these interrupts have to leave alone only what the stubs have on the two stacks: the
60 bytes below the top of the kernel stack, and 24 bytes on either side of the caller's stack pointer
(`InterruptedStubs.CallArea`). `TaskContexts` applies this to the contexts that `task_create` makes, whose kernel
stacks end in the middle of a word.

Findings, where the code and its stated intention differ; the model follows the code:

- `task_free` (`yoctos/kernel/task/task.c:138`) frees the first page of every table a second time instead of the
  table. Every program that ends leaves its page tables behind, `ceil(pages / 1024)` frames, at least one. The free
  set never comes back complete (`TaskSpec.CallRestores`), so the frames bound how many programs can ever finish
  (`TaskSpec.FinitelyManyPrograms`). With `repaired` set, the model frees the table itself; then the free set comes
  back exactly.
- `stdio.h:6` counts the final NUL in `size`; the code writes it at `dest[min(size, length)]`, so `size + 1` cells are
  needed, and the comment is right exactly for outputs shorter than `size` (`Format.Delivered`, last line).
- A numeric conversion that does not fit makes `vsnprintf` spin, because `putc(buf[--len])` decrements only when there
  is room (`stdio.c:38-44, 75, 82, 89`); a numeral longer than `size` is written past `buf` before that. For example,
  with the argument 10, `"a%u"` spins for size 2 and `"%u"` overruns `buf` for size 1 (`Format.FailingCalls`).
- `read_string` never looks at the size of the buffer; `Console.Reads` says exactly for which keys it writes behind
  it, for example for n + 1 printable keys and n bytes (`Console.TooManyKeys`).
- The rows of `tmp_argv` (`task.c:198-203`) run into each other: an argument of 50 characters or more goes on with the
  next one, so the program reads other arguments than it was given (`ArgumentBlock.MangledExample`). All of them
  survive if and only if every argument that fills its row, the last one excepted, goes on behind 50 characters with
  just the next one (`ArgumentBlock.StagedExactly`).
- With more than five arguments, or with one that is too long for its row at the end, `task_load` writes behind
  `tmp_argv`, before it looks whether the module exists (`Staging.RowsInArray`, `Staging.OverrunExamples`).
- `exception_handler` (`yoctos/kernel/interrupt/idt.c:154-168`) takes any exception for one of the current task's own,
  also a page fault in a system call on its behalf, and then overwrites kernel code.
- `get_ticks` (`yoctos/user/ulibc.c:105-109`) passes a null pointer to system call 3, which stores through it. Frame 0
  belongs to nobody, so this is harmless (`KernelTasks.Kernel.NullIsHarmless`).
- `memcpydw` and `memcpy` differ on overlapping areas exactly if the destination starts inside the first double word
  of the source (`Memory.CopiesAgree`).
- `read_string` stores and echoes the low byte of a key code. This would go wrong for codes other than 8 whose low
  byte is 8, and for them only (`Console.ScreenShowsLine`); the keymap delivers none (`Console.KeysAreShown`), so this
  is no failure.
- `paging_alloc` is asked for the argument block twice (`task.c:69, 89`); the mapping covers the stack all the same.

Assumptions, all in `KernelState.ConfigOk` or in a `requires`: RAM ends below `TASK_VIRT_ADDR`; the kernel's own page
directory and the template map RAM to itself for the kernel, the template maps nothing in the tasks' range, and what
it maps outside RAM is not RAM; kernel code lies in frames of the kernel, and an instruction of it that loads or
stores is not `iret`; modules have a command line and lie in RAM that the allocator does not manage; frame 0 is
neither allocatable nor used; `frame_alloc` returns any free frame, zeroed, or reports that there is none,
`frame_free` makes a frame free whether it was or not, `paging_alloc` stores page tables from index 0 on and builds
one table per 4 MB; enough frames are free when a task is created in a free slot; the task table and the initial TSS
lie in RAM that the allocator does not manage; two's complement with wrap-around.

## Model

| member | source | states |
|---|---|---|
| Gdt.DescriptorRoundTrip | yoctos/kernel/mem/gdt.c:52-70 | the processor's reading of the packed bit fields gives back every 32-bit base, every 20-bit limit and all access rights |
| Gdt.TssDescriptor | yoctos/kernel/mem/gdt.c:91-93 | a TSS entry decodes to the address of the TSS, limit `sizeof(tss_t) - 1` and a present kernel TSS |
| Gdt.GdtInit | yoctos/kernel/mem/gdt.c:101-114 | the processor reads entries 1 to 4 as present 32-bit segments from 0 to 0xFFFFFFFF, of types 9, 3, 9, 3 and privilege 0, 0, 3, 3, and finds nothing in the others |
| Gdt.FixedSegments | yoctos/kernel/mem/gdt.c:72-89 | what the processor decodes from the entries below the tasks', which every later state keeps: a null entry, four flat segments with their types and privilege levels, and the base of the initial TSS |
| Paging.WalkTask | yoctos/kernel/mem/paging.h:112-122 | in a mapping built by `paging_alloc` the walk finds page p of the task in its p-th frame, as a user page |
| Paging.WalkElsewhere | yoctos/kernel/task/task.c:71-74 | at all other addresses the walk finds exactly what it finds in the template |
| Paging.WalkMeans | yoctos/kernel/mem/paging.h:37-88 | page j * 1024 + e is entry e of the table behind directory entry j; user access needs both, and an absent entry of either kind is a fault |
| Paging.StoreMemory | yoctos/kernel/mem/paging.h:112-113 | the pages form one contiguous memory: a store into a page changes exactly one byte of it |
| Paging.EntryChanges | yoctos/kernel/mem/paging.h:72-88 | every byte of an entry counts: some value changes whether it is present (byte 0) or the frame number (bytes 1 to 3) |
| Paging.PokedBits | yoctos/kernel/mem/paging.h:72-88 | overwriting byte k of an entry is overwriting byte k of its 32 bits, of which bit 0 is present, bit 2 user and bits 12 to 31 the frame number |
| Paging.StoreKeepsTable | yoctos/kernel/mem/paging.h:72-88 | bytes 1 to 3 of an entry that is not present can be stored to without changing any mapping |
| KernelTasks.Kernel.PagingAlloc | yoctos/kernel/mem/paging.h:112-122 | reference model of the contract, for the call in `task_create`: the least number of zeroed pages that holds the size, the least number of tables for them, all taken from the pool, tables recorded in order from index 0, the number of frames returned, no other frame changed |
| KernelTasks.Kernel.FrameAlloc | yoctos/kernel/mem/frame.h:22-29 | any free frame, zeroed, and no longer free; -1 and no change if there is none |
| KernelTasks.Kernel.FrameFree | yoctos/kernel/mem/frame.h:31-33 | idempotent: freeing twice is freeing once |
| ArgumentBlock.ArgumentSize | yoctos/kernel/task/task.c:191-195 | the sizing loop yields the number of bytes of argc and the strings |
| ArgumentBlock.BlockRoundTrip | yoctos/kernel/task/task.c:225-232 | wherever the block lies, reading argc and then that many strings gives back exactly argv |
| ArgumentBlock.BlockExample | yoctos/kernel/task/task.c:225-232 | "a" and "bc" byte by byte: argc in four bytes, lowest first, then the strings with their NULs |
| CTypes.LittleEndian | yoctos/kernel/task/task.c:225-226 | a 32-bit number in memory starts with its low byte |
| ArgumentBlock.StagedExactly | yoctos/kernel/task/task.c:197-203 | the program gets the arguments it was given if and only if each one that fills its 50 bytes, but for the last, goes on behind them with just the next one |
| ArgumentBlock.MangledExample | yoctos/kernel/task/task.c:197-203 | two arguments that do not survive: the first, of 50 characters, runs on into the second |
| Staging.Stage | yoctos/kernel/task/task.c:197-203 | for all texts: the loop stays inside the array if and only if `IsArgv` holds; then row i ends up as the text `StagedAt`; nothing outside the array changes before it leaves the array |
| Staging.RowsInArray | yoctos/kernel/task/task.c:197-203 | `IsArgv` means just that the bytes of all rows, both NULs included, lie in the 250 bytes |
| Staging.OverrunExamples | yoctos/kernel/task/task.c:197-203 | two argument lists that are written behind the array: six arguments, and a fifth one of 49 characters |
| Staging.RowText | yoctos/kernel/task/task.c:228-229 | what is read from row i once all rows are written |
| Staging.ElsewhereMeans | yoctos/kernel/task/task.c:199-201 | the caller's strings are only asked to have no byte in the array |
| TaskSpec.AddressSpace | yoctos/kernel/task/task.c:35-89 | image, argument block and 2 MB stack are consecutive from 1 GB; the mapping covers them up to `esp`, is whole pages and not a page more than what is asked for; the arguments read back from `get_task_args` are the staged ones, and argv itself if all but the last have at most 49 characters; everything behind them is zero |
| TaskSpec.ExecEffect | yoctos/kernel/task/task.c:186-236 | a start adds one task, leaves the others, takes just the frames of the new one from the pool, and the new one holds the image and reads the staged arguments |
| TaskSpec.KernelStoreEffect | yoctos/kernel/syscall/syscall.c:30-62 | a store by the kernel changes just the byte that lies at that address, of the running program or under its physical address, in every task |
| TaskSpec.FrameAccounting | yoctos/kernel/task/task.c:112-148 | over every run each frame is free, held by exactly one live task, or a leaked table; the leak is exactly the tables of the tasks that returned, and empty for the repaired return |
| TaskSpec.FreeCount | yoctos/kernel/task/task.c:126-140 | over every run the free count plus the frames held plus the tables of returned tasks is constant |
| TaskSpec.FinitelyManyPrograms | yoctos/kernel/task/task.c:138 | the number of programs that finish is at most the drop of the free count, so the pool bounds it |
| TaskSpec.DepthCount | yoctos/kernel/task/task.c:48-65 | depth is started minus finished programs and never exceeds 8 |
| TaskSpec.Isolation | yoctos/kernel/task/task.c:241-251 | while task d is alive, starts, returns and stores at or above it, kernel stores that spare the tasks below d included, leave every byte and frame of the tasks below d, and the frames of d, unchanged |
| TaskSpec.RunsAboveMeans | yoctos/kernel/task/task.c:241-251 | the hypothesis step by step: after every part of the run more than d tasks are alive, and every kernel store spares those below d in the state in which it is made; nothing else |
| TaskSpec.SparesExactly | yoctos/kernel/syscall/syscall.c:30-62 | a store by a system call leaves the tasks below d unchanged for every value if and only if its address is the running program's own or in no page of theirs |
| TaskSpec.KernelReaches | yoctos/kernel/syscall/syscall.c:30-62 | the address page frame * 4096 + offset changes just that byte of just the task that owns the page |
| TaskSpec.CallRestores | yoctos/kernel/task/task.c:241-251 | `task_exec` with everything nested in it, kernel stores into the callers' pages excepted, restores the callers' tasks exactly and the free set up to the page tables of all programs that ran, at least `ceil(pages / 1024)`; exactly, if repaired |
| KernelState.StoreTop | yoctos/kernel/task/task.c:221-234 | a byte stored into a page of the top task changes that byte of that task and no other task, no page table and no kernel memory |
| KernelState.StoreAnywhere | yoctos/kernel/task/task.c:163-174 | a user store at any 32-bit address changes the running task's own byte or no RAM at all |
| KernelState.KernelStoreAnywhere | yoctos/kernel/syscall/syscall.c:30-62 | a store by the kernel at any 32-bit address that does no damage is one `KernelStore` step and does not fault |
| KernelState.DamageExactly | yoctos/kernel/interrupt/idt.c:154-168 | for every value the invariant of the kernel survives the store, and the fault it may cause, if and only if the address is mapped, not the kernel's and no byte that counts in a live page table |
| KernelState.IdentityWalk | yoctos/kernel/task/task.c:166-171 | under every live task's directory RAM is where it was, for the kernel only |
| KernelState.WalkAnywhere | yoctos/kernel/task/task.c:71-89 | what is mapped while a task runs: RAM for the kernel only, its own pages for it, what the template maps beyond RAM, and nothing else |
| KernelState.SlotPublished | yoctos/kernel/task/task.c:63-85 | a live slot has id i, selector 8 * (6 + i), a GDT entry that decodes to the TSS at offset 0x1000 of its slot, and a context with its own page directory, the end of its kernel stack, entry point 1 GB, interrupts enabled and the selectors of entries 2, 3 and 4 with their privilege levels |
| TaskLayout.FieldsApart | yoctos/kernel/task/task.h:20-31 | by the layout rules of C the fields of a structure do not overlap and lie inside it |
| TaskLayout.TaskFields | yoctos/kernel/task/task.h:20-31 | what these rules give for `task_t`: the TSS at 0x1000, the kernel stack from 0x4072 to 0x14072, 0x15000 bytes in all |
| KernelState.SlotsApart | yoctos/kernel/task/task.c:17 | the slots of the task table follow each other at that length, below 1 GB |
| KernelTasks.Kernel.SlotFields | yoctos/kernel/task/task.c:76-85 | in every state `esp0` of a live task is the end of `kernel_stack` of its slot, and neither another field of the slot nor another slot reaches into the 65536 bytes below; the GDT entry describes the field `tss` |
| KernelState.PopSlot | yoctos/kernel/task/task.c:126-143 | taking the top slot off leaves every other task, page table and byte of kernel memory as it was |
| KernelTasks.ModByName | yoctos/kernel/boot/module_by_name.c:6-13 | the least index of a module with that command line, or -1 |
| KernelTasks.Kernel.constructor | yoctos/kernel/task/task.c:151-181 | after initialisation no task is live and all allocatable frames are free |
| Boot.Boots | yoctos/kernel/mem/paging.h:90-102 | the assumptions can be met: for every RAM from 177 pages to 1 GB there is a configuration with identity mapping, frame buffer, kernel code, task table and a module to load |
| Boot.FirstProgram | yoctos/kernel/task/task.c:241-247 | with 4 MB of RAM or more, the first program started on such a machine runs, whatever its arguments |
| KernelTasks.Kernel.TaskCreate | yoctos/kernel/task/task.c:29-95 | fails exactly if eight tasks are live, changing nothing; else adds one task, published as `SlotPublished` says, with zeroed memory of the least number of pages, that stack pointer and frames from the pool, leaving all others as they are |
| KernelTasks.Kernel.CopyImage | yoctos/kernel/task/task.c:221-223 | the bytes of the module, read through the identity mapping, appear at the start of the task and nothing else changes |
| KernelTasks.Kernel.CopyArguments | yoctos/kernel/task/task.c:225-232 | the argument block appears behind the image and nothing else changes |
| KernelTasks.Kernel.TaskLoad | yoctos/kernel/task/task.c:186-236 | one `Exec` step of the abstract system with the image of the first module of that name, or nothing at all; or, exactly for arguments that are not `IsArgv`, a write behind the staging array, before anything else has changed |
| KernelTasks.Kernel.FreeTable | yoctos/kernel/task/task.c:126-139 | one table, found through the loaded page directory: entry 0 is present, the pages are freed in order, and line 138 calls `frame_free` once more with the first one, or, repaired, with the frame of the table |
| KernelTasks.Kernel.FreeFrames | yoctos/kernel/task/task.c:126-140 | the walk over the recorded tables stays in bounds, stops, calls `frame_free` exactly as `FreeCalls` lists, frees exactly the frames of the mapped pages (and of the tables, if repaired) and changes no frame but the tables |
| KernelTasks.TimesFreed | yoctos/kernel/task/task.c:126-139 | how often each frame is handed to `frame_free`: every page once, but the first page of every table twice, and no table; repaired, every page and every table once |
| KernelTasks.Kernel.TaskFree | yoctos/kernel/task/task.c:114-148 | one `Return` step of the abstract system, under the caller's page directory, with the calls of `frame_free` that `TimesFreed` counts |
| KernelTasks.Kernel.Enter | yoctos/kernel/task/task.c:241-247 | for arguments that fit the staging array: succeeds if and only if the module can be loaded and fewer than eight tasks are live; fails without any change; else one `Exec` step |
| KernelTasks.Kernel.Leave | yoctos/kernel/task/task.c:248-251 | the task that returns is the last one started; one `Return` step |
| KernelTasks.Kernel.UserStore | yoctos/kernel/task/task.c:71-89 | a store instruction of the running program, whatever its own address and the one it stores to, is one `Store` step, or, if either cannot be used, the `KernelStore` step of `exception_handler` at `eip` |
| KernelTasks.Kernel.ExceptionHandler | yoctos/kernel/interrupt/idt.c:154-168 | the byte `0xCF` at `eip`, stored in kernel mode under the page directory of the program: one `KernelStore` step |
| KernelTasks.Kernel.ExceptionsAtHome | yoctos/kernel/interrupt/idt.c:154-168 | at an address that the program can fetch an instruction from, that step does no damage and spares all waiting tasks |
| KernelTasks.Kernel.SystemCallStore | yoctos/kernel/syscall/syscall.c:30-62 | a byte stored by a system call where it does no damage is one `KernelStore` step |
| KernelTasks.Kernel.HarmlessStores | yoctos/kernel/syscall/syscall.c:30-62 | the kernel and all waiting tasks are as before for every value if and only if the address is mapped, not the kernel's, no byte that counts in a live page table, and is the program's own or in no page of a waiting task; otherwise the store, or `exception_handler` after it, changes one of them |
| KernelTasks.Kernel.HarmlessLoads | yoctos/kernel/syscall/syscall.c:17-22 | a load by a system call leaves all memory as it was if its address is mapped, and costs the kernel its instruction, so the invariant, if not |
| KernelTasks.Kernel.MappedExactly | yoctos/kernel/task/task.c:71-89 | the walk of the loaded page directory faults exactly at the addresses that are neither RAM nor the program's own nor mapped by the template |
| KernelTasks.Kernel.EveryByteInReach | yoctos/kernel/syscall/syscall.c:30-62 | for every byte of every live task there is an address at which a system call changes that byte and nothing else |
| KernelTasks.Kernel.NullIsHarmless | yoctos/user/ulibc.c:105-109 | a system call's store through a null pointer changes no task and nothing of the kernel |
| KernelTasks.Kernel.Run | yoctos/kernel/task/task.c:241-251 | every sequence of starts with any arguments, returns, stores, exceptions and system calls that store or load is answered, request by request, by a legal run of the abstract system, to its end or to the first of: a program with a free slot that the free frames do not suffice for, arguments written behind the staging array, a kernel store that does damage, a kernel load where nothing is mapped; the number of running programs is that of the starts carried out minus that of the returns (`Depth`) |
| KernelTasks.Kernel.Serve | yoctos/kernel/task/task.c:241-251 | one request, on the tasks and the pool: a start adds one task, with image, staged arguments, stack pointer and just the frames it needs; a return leaves all other tasks as they are and frees the pages of the last; a store, an exception or a storing system call changes just the named byte; a load nothing; it is refused exactly if `Unanswered`, and then nothing changes |
| KernelTasks.Kernel.StartAndFinish | yoctos/kernel/task/task.c:241-251 | a program that starts and ends leaves a kernel without programs, whose pool has lost just its page tables, one for every 4 MB begun |
| KernelTasks.Kernel.OwnAddressesAnswered | yoctos/kernel/task/task.c:241-251 | returns, and stores, exceptions, storing and loading system calls at addresses of the program itself, are always answered |
| KernelTasks.FramesCounted | yoctos/kernel/mem/paging.h:112-122 | the number of frames that a start needs: the least number of pages for the size and the least number of tables for these |
| KernelTasks.Kernel.GetTaskBySelector | yoctos/kernel/task/task.c:97-110 | inverts slot to selector on all 16-bit values |
| KernelTasks.Kernel.GetTaskById | yoctos/kernel/task/task.c:257-264 | finds the live task with the id, which is its slot |
| KernelTasks.Kernel.SlotDiscipline | yoctos/kernel/task/task.c:48-65 | in every state: used slots are the prefix of length depth, each is published, `task_id` is 1 + depth, the loaded page directory is the top task's, entries 0 to 5 and kernel memory are as at boot, and the processor reads entries 1 to 4, which the contexts name, as flat code and data of the kernel and of programs |
| KernelTasks.Kernel.FrameDiscipline | yoctos/kernel/task/task.c:87-89 | in every state: frames of distinct live tasks are disjoint, none is free, all come from the pool |
| Numbers.PrintintRev | yoctos/common/stdio.c:8-27 | leaves the numeral with its sign backwards, a NUL behind it, and touches nothing else |
| Numbers.ValueOfDigits | yoctos/common/stdio.c:18-20 | the numeral has the value of the number, in every base from 2 to 16 |
| Numbers.DecimalForm | yoctos/common/stdio.c:18-20 | decimal numerals are digits only, with no leading zero but for 0 |
| Numbers.HexForm | yoctos/common/stdio.c:9 | hexadecimal numerals consist of 0 to 9 and A to F, with no leading zero but for 0 |
| Numbers.UnsignedRoundTrip | yoctos/common/string.c:47-52 | `atoi` of `%u` is the number, for every 32-bit number |
| Numbers.LeadingZero | yoctos/common/string.c:47-52 | a leading zero does not change what `atoi` reads |
| Numbers.SignedRoundTrip | yoctos/common/stdio.c:13-23 | `%d` without its sign, parsed and negated modulo 2^32, is the pattern, the minimum included |
| Format.DigitLoopEnds | yoctos/common/stdio.c:38-44 | the digit loop ends if and only if the digits fit into the room left |
| Format.Vsnprintf | yoctos/common/stdio.c:46-108 | returns if and only if the output up to every number fits; then the count is min(size, length), the destination holds that prefix of the complete output and a NUL, which lies within the first size cells if and only if the output is shorter, and no other cell changes; otherwise the first number that does not fit decides between spinning and writing past `buf` |
| Format.FailingCalls | yoctos/common/stdio.c:78-84 | two calls that fail: `"%u"` with 10 and size 1 overruns `buf`, `"a%u"` with 10 and size 2 spins |
| Format.PrintThenParse | yoctos/common/stdio.c:78-84 | rendering `%u` and parsing gives back the argument |
| Format.RendersDecimal | yoctos/common/stdio.c:71-76 | `%d`: a minus sign exactly for patterns from 2^31 on, then decimal digits that read back as the number |
| Format.RendersUnsigned | yoctos/common/stdio.c:78-83 | `%u`: decimal digits without leading zero that read back as the number |
| Format.RendersHex | yoctos/common/stdio.c:85-90 | `%x`: digits 0 to 9 and A to F without leading zero whose value in base 16 is the number |
| Format.RendersCharAndString | yoctos/common/stdio.c:56-70 | `%c` is the low byte, `%s` the text |
| Format.RendersOthers | yoctos/common/stdio.c:92-103 | `%%` is a percent sign, an unknown letter and a final `%` nothing, any other byte itself |
| Format.RendersParts | yoctos/common/stdio.c:50-104 | the rendering of formats put together is that of the parts put together |
| StringOrder.CompareZero | yoctos/common/string.c:25-30 | zero if and only if equal |
| StringOrder.CompareSwap | yoctos/common/string.c:25-30 | antisymmetric |
| StringOrder.CompareNegative | yoctos/common/string.c:25-30 | negative if and only if lexicographically smaller on unsigned bytes |
| StringOrder.CompareTransitive | yoctos/common/string.c:25-30 | transitive |
| StringOrder.PrefixCompare | yoctos/user/ulibc.c:149-158 | `strncmp` over the length of the prefix is zero if and only if `starts_with` holds |
| Strings.Strlen | yoctos/common/string.c:4-8 | the length up to the NUL |
| Strings.Strncpy | yoctos/common/string.c:10-21 | min(count, length) characters and a NUL are written; if the destination lies in the source text or on its NUL, the characters in front of it repeat up to the count; nothing else changes |
| Strings.CopiedPlainly | yoctos/common/string.c:10-21 | with the destination outside the text: the text, cut to the count, and a NUL |
| Strings.Strcmp | yoctos/common/string.c:25-30 | the comparison of the two texts |
| Strings.Strncmp | yoctos/common/string.c:34-45 | the comparison of the two texts cut to n characters, for areas that hold a string or n bytes |
| Strings.Atoi | yoctos/common/string.c:47-52 | the value of the leading decimal digits modulo 2^32 |
| Strings.ToLower | yoctos/common/string.c:54-62 | the lower-case text in place, nothing else changes |
| Strings.LowerLetters | yoctos/common/string.c:54-62 | just the 26 upper-case letters change, to their lower-case ones, and once is enough |
| Strings.StartsWith | yoctos/user/ulibc.c:149-158 | the prefix relation |
| Strings.Trim | yoctos/user/ulibc.c:160-182 | returns where the trimmed text starts, having written at most one NUL behind it; the backward scan never passes that start |
| Strings.TrimUnique | yoctos/user/ulibc.c:160-182 | a text without spaces at its ends, between spaces, is what `trim` returns |
| Strings.TrimMaximal | yoctos/user/ulibc.c:160-182 | every part of a line without a space at its ends lies inside what `trim` keeps |
| Strings.TrimSplit | yoctos/user/ulibc.c:160-182 | every line is spaces, its trimmed text, spaces |
| Strings.TrimTwice | yoctos/user/ulibc.c:160-182 | idempotent |
| Strings.TrimLower | yoctos/user/shell.c:21 | `trim` and `tolower` commute |
| Console.EditKey | yoctos/user/ulibc.c:115-142 | one key edits the buffer and echoes as specified: tab is four spaces, backspace deletes the last character if there is one |
| Console.ReadString | yoctos/user/ulibc.c:112-145 | for every sequence of keys: it returns at the newline, waits for more keys, or writes behind the buffer, exactly as `Reads` says; buffer and echo are the folds of the keys; the buffer is the typed text if no stored byte is 0 |
| Console.TooManyKeys | yoctos/user/ulibc.c:112-145 | n + 1 printable keys, for one, are written behind a buffer of n bytes |
| Console.ReadsOne | yoctos/user/ulibc.c:112-145 | the keys and the size of the buffer decide which of the three happens, and when |
| Console.KeysMean | yoctos/user/ulibc.c:115-142 | key by key, for the codes 0, 8, 9 and the printable ones: what the line becomes and what is echoed |
| Console.NewlineEnds | yoctos/user/ulibc.c:125-127 | code 10 ends the line, whatever follows, and without it the call waits |
| Console.ScreenShowsLine | yoctos/user/ulibc.c:112-145 | after every key an ideal terminal shows the buffer, if and only if no key other than backspace has its low byte |
| Console.KeysAreShown | yoctos/kernel/keymaps/keymap_fr_CH.c:5-194 | for the codes that the keymap delivers the terminal always shows the buffer |
| Console.ReadCommand | yoctos/user/shell.c:20-53 | the decision of the shell as a function of the line |
| Console.WordsUnderstood | yoctos/user/shell.c:22-45 | `help`, `ticks` and `exit`, between spaces and in any letter case, mean what they say, and spaces alone are a blank line |
| Console.OthersLaunched | yoctos/user/shell.c:46-53 | every other word is launched as a program, in lower case |
| Console.SleepUnderstood | yoctos/user/shell.c:21-33 | any spacing, any letter case, at least one space and the decimal form of any 32-bit n mean sleep n |
| Console.SleepAloneIsLaunched | yoctos/user/shell.c:29-49 | without an argument the word is run as a program |
| Memory.Memcpy | yoctos/common/mem.c:16-21 | the exact effect for every overlap: the source, or, where the destination starts inside the source, the bytes in front of it repeated |
| Memory.CopyMeans | yoctos/common/mem.c:16-21 | the copy is the source unless the destination starts inside it; then each byte behind the first ones is the one that distance before it |
| Memory.Memcpydw | yoctos/common/mem.c:23-28 | the exact effect for every overlap, each double word read before it is written |
| Memory.CopiesAgree | yoctos/common/mem.c:16-28 | the same effect as `memcpy` on 4 * count bytes, for every memory, if and only if the destination does not start inside the first double word of the source |
| EntryStubs.PushList | yoctos/kernel/interrupt/idt_asm.s:43-54 | a list of registers ends up on the stack in reverse order, memory above is untouched |
| Interrupts.StubsComplement | yoctos/kernel/interrupt/idt_asm.s:14-120 | of the stub, as the file lists it, and the processor exactly one pushes an error code, for every vector with a gate, and the stub pushes the number of the exception or hardware interrupt |
| Interrupts.HandlerFrame | yoctos/kernel/interrupt/idt_asm.s:14-66 | for the stub of every vector, the C handler finds one uniform frame with the fields of `regs_t` in their order, with 0 where the processor pushes no error code, a pointer to it, and the kernel's code and data segments |
| Interrupts.HandlerMasked | yoctos/kernel/interrupt/idt_asm.s:14-66 | the C handler of every exception and hardware interrupt starts with bit 9 of the flags 0 and all other bits as they were |
| Interrupts.StubMasks | yoctos/kernel/interrupt/idt_asm.s:14-38 | so does every stub alone, through `cli`, whatever kind of gate led to it |
| Interrupts.MaskingInstructions | yoctos/kernel/interrupt/idt.c:202-214 | and so does an interrupt gate alone, while a trap gate leaves the flags as they are |
| Idt.GateRoundTrip | yoctos/kernel/interrupt/idt.c:72-82 | the processor reads back every offset and selector, the kind of gate and the privilege level |
| Idt.IdtInit | yoctos/kernel/interrupt/idt.c:182-225 | the processor finds interrupt gates of the kernel to the stubs at 0 to 20 and 32 to 47, a trap gate that programs may use at 48, and nothing elsewhere |
| Idt.DeliveryFollowsGates | yoctos/kernel/interrupt/idt.c:182-225 | with these gates delivery masks interrupts for every vector of the stubs and does not for system calls |
| Interrupts.LeaveRestores | yoctos/kernel/interrupt/idt_asm.s:67-85 | with the frame intact the wrapper restores all registers, flags, stack pointer and mode |
| Interrupts.TraceKeeps | yoctos/kernel/interrupt/idt_asm.s:40-86 | a handler interrupted any number of times, to any depth, still keeps what it has to keep |
| Interrupts.ContextPreserved | yoctos/kernel/interrupt/idt_asm.s:40-123 | for every machine state with 16-bit segment registers, any alignment of the stacks, every vector and every nesting, the interrupted context comes back unchanged |
| Interrupts.TakeInterrupt | yoctos/kernel/interrupt/idt_asm.s:14-123 | a processor that executes stub and wrapper instruction by instruction is back in the interrupted context |
| Interrupts.IdleHandler | yoctos/kernel/interrupt/idt_asm.s:66 | the hypotheses can be met: a handler that returns at once behaves in every state |
| Interrupts.InterruptedIdle | yoctos/kernel/interrupt/idt_asm.s:66 | and so does one that is interrupted and does nothing else |
| Syscalls.ArgumentsDelivered | yoctos/kernel/syscall/syscall_asm.s:10-34 | the handler finds the five register arguments in order on its stack |
| Syscalls.TrapKeepsFlags | yoctos/kernel/interrupt/idt.c:220 | the handler of a system call starts with the flags of its caller, interrupts enabled included |
| Syscalls.GuardBytes | yoctos/kernel/syscall/syscall_asm.s:10-49 | what the C handler must leave alone, byte by byte: its return address, nine words behind its arguments, seven words on the user's stack |
| Syscalls.LeavesKernel | yoctos/kernel/syscall/syscall_asm.s:38-49 | iret finds the caller; only ebx may differ from what the handler left |
| Syscalls.SystemCall | yoctos/user/syscall_asm.s:7-40 | number and arguments arrive in order, the result comes back in eax, and every other register, the flags, segments and stack pointer are as before |
| Syscalls.InterruptedHandler | yoctos/kernel/interrupt/idt.c:220 | the trap gate leaves interrupts on: a handler that is interrupted any number of times, to any depth, keeps all that `SystemCall` asks for |
| Syscalls.ServeCall | yoctos/kernel/syscall/syscall_asm.s:10-49 | a processor that executes both stubs around an interrupted handler returns to the caller with everything but eax as it was |
| InterruptedStubs.RunAlike | yoctos/user/syscall_asm.s:7-40 | a program of the stack machine that is interrupted any number of times before, between and behind its instructions ends with the same registers, flags and stack pointer and, from the stack pointer up, with the same bytes, as far as the handlers keep them; what they have to keep is any set that covers what the program reads |
| InterruptedStubs.InterruptedCall | yoctos/kernel/syscall/syscall_asm.s:10-49 | a system call interrupted between any two instructions of both stubs, on the way in and out, and in the C handler, to any depth, reaches the C handler and completes as `SystemCall` says, if the handlers of interrupts leave alone what the stubs have on the two stacks; whatever else they keep is kept |
| InterruptedStubs.CallAreaBytes | yoctos/kernel/syscall/syscall_asm.s:10-34 | what the handlers of interrupts must leave alone, byte by byte: 60 bytes below the top of the kernel stack, 24 on either side of the caller's stack pointer |
| InterruptedStubs.QuietCall | yoctos/kernel/syscall/syscall_asm.s:10-49 | the hypotheses can be met: a call without interrupts whose handler returns at once satisfies them in every state |
| InterruptedStubs.TickingCall | yoctos/kernel/interrupt/idt_asm.s:14-86 | so can they with an interrupt in the stub whose handler writes a word anywhere outside the two stacks, as a timer does |
| TaskContexts.TaskStarts | yoctos/kernel/task/task.c:76-85 | for every program that can be started, the processor state loaded from its TSS is in user mode, at 1 GB, with interrupts enabled, its stack pointer 2 MB behind the argument block and its kernel stack ending 65536 bytes behind offset 0x4072 of its slot |
| TaskContexts.StackTopResidue | yoctos/kernel/task/task.h:20-31 | the kernel stack of every task ends 2 bytes behind a multiple of 4 |
| TaskContexts.TaskInterrupted | yoctos/kernel/task/task.c:76-85 | an exception or interrupt in user mode of any live task leaves the context as it was, at any stack pointer |
| TaskContexts.TaskResumes | yoctos/kernel/task/task.c:76-85 | for a live task and a handler that returns at once nothing is left to assume: the context comes back |
| TaskContexts.TaskCalls | yoctos/kernel/task/task.c:76-85 | a system call of any live task, from any stack pointer in its address range and with interrupts between any two instructions, comes back as `SystemCall` says |
| TaskContexts.TaskGetsBack | yoctos/kernel/task/task.c:76-85 | the same without interrupts and with a handler that returns at once, where nothing is left to assume |
| TaskContexts.TaskTicks | yoctos/kernel/task/task.c:76-85 | the same with a timer interrupt in the stub that writes its counter anywhere between the task's kernel stack and the programs' address range |

## Left out

- KernelTasks.Kernel.PagingAlloc: bodies of `frame_*` and `paging_*` are not part of this model; this is a reference model of the header's contract for its one call, at `TASK_VIRT_ADDR` with user privilege, a copy of the template and pointers to record.
- KernelTasks.Kernel.TaskCreate: enough frames are free if a slot is; the header does not say what `paging_alloc` does without them.
- KernelTasks.Kernel.Enter: the same.
- KernelTasks.Kernel.Run: stops at a program that the free frames do not suffice for, at a write behind the staging array, at a kernel store that does damage and at a kernel load where nothing is mapped, which no abstract step describes.
- KernelTasks.Kernel.TaskLoad: enough frames if a slot is free and the module exists; what follows a write behind the staging array; an empty module (size -1 of a module that was found) cannot occur under the assumption on RAM; a negative `argc`, for which the code copies no string.
- KernelTasks.Kernel.UserStore: where the byte of `exception_handler` does damage there is no abstract step; `KernelState.DamageExactly` says where that is.
- KernelTasks.Kernel.ExceptionHandler: the same; of the handler only its store is modelled, not the message, the selector lookup and, after a store into kernel code, what the overwritten instruction does.
- KernelTasks.Kernel.SystemCallStore: the same.
- KernelTasks.Kernel.constructor: the template directory is taken as `paging_mmap` promises to leave it, and the task register is not modelled.
- Format.Vsnprintf: `size >= 0`; arguments match the format; what follows a write past `buf` is not described.
- Console.ReadString: what follows a write behind the buffer is not described.
- System calls other than as loads and stores through a program's pointer: what they display or return, the dispatcher, and the size of what 2, 3 and 5 store and 0 and 7 load, which is a sequence of bytes. Number 6 draws through `vbe_setpixel`; vbe.c is not part of this model.
- The records of the task table and the GDT are values in sequences that the kernel object reassigns; the addresses of their fields matter only where the code uses them (TSS, page directory, kernel stack), and a kernel store into their frames counts as damage.
- A frame holds either bytes or a page table. A byte stored into a page table changes the present bit, the user bit or part of the frame number of its entry; other bits of an entry, and page tables read as bytes, are not modelled.
- The entry stubs are programs given as data to an interpreter; arithmetic flags, the flags TF, NT, RF and VM, which delivery also clears, and stack wrap-around at address 0 are not modelled.
- The semantics of `call far` on a TSS, the busy bit and `iret` across tasks; they are the `Enter` and `Leave` steps.
- The task switch colours, printed totals and messages, drivers, PIC, timer, display, keymaps beyond their codes, `irq_init`, `lidt`, and boot code.
- `memset` and `memsetdw`: single counted stores.
