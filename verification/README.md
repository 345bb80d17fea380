# A verified model of simple-riscv-os

This project models the kernel of simple-riscv-os (RV64, Sv39, single hart) and
three routines of its user library, and proves what they are for: every user
process runs on a private machine of its own, although memory, page tables, the
processor's registers and the translation cache are shared; nobody starves, sleeps
too short or too long, or runs after its exit; memory suffices; and the text
routines print and edit exactly what they say.

`dafny verify dfyconfig.toml` checks the whole project.

## How it is built

The source changes things step by step, so its code appears here as classes and
methods with loops. Each method is proved equal to a function on values; the
theorems are about those functions, and about every run of a state machine made of
them.

| part | files | what they hold |
|---|---|---|
| words and hardware | `Words`, `Sv39`, `Pte` | C operators on 64-bit words; the address translation of the RISC-V Privileged Architecture (version 20211203, sections 4.3.2 and 4.4), written without reference to the kernel; the kernel's bit expressions and what they mean |
| memory, on values | `PhysMemory`, `PageTables`, `Heap`, `UserPages`, `FlatView`, `AddressSpaces`, `Budget` | page allocation, `map_page`, page tables that lie in the memory they translate, shared kernel tables, user frames, and the flat 8 MB that each process sees |
| memory, as code | `KernelView`, `MemoryCode` | how the kernel reaches its own memory through the tables that it is changing; class `Memory`: memory.c and its callers on one mutable array of words, every load and store through the translation in force |
| the machine | `TrapFrame`, `Scheduler`, `Machine`, `Invariant` | processes, traps, system calls, ticks, switches, the idle loop with interrupts on, the translation cache; the invariant of every run |
| theorems on runs | `PrivateMachines`, `Refinement`, `Scheduling`, `KernelTime`, `Sleeping`, `Faults` | refinement of private machines, fairness, bounds, sleep, exit, shutdown, demand paging, PANIC |
| the kernel, in numbers | `KernelLaws` | for each system call, for a tick, a page fault and each return from waiting, the whole next state in numerals, without the names of kernel functions |
| booting | `Boot`, `Startup`, `BootMemory`, `Exhaustion` | process creation and `kernel_main` up to the first switch; how much memory booting takes, and how much suffices for every run, to the page |
| the kernel, as code | `KernelCode`, `Assembly`, `KernelStacks` | class `Kernel`: process.c and kernel.c; class `Hart`: the assembly of `kernel_entry`, `switch_context` and the pushes of `alloc_process`; kernel stacks as coroutines |
| text | `Readline`, `Decimal`, `UserSleep` | the line editor and its screen, the number printers, `sleep` |

Three ideas carry the proofs.

*The book.* `Ram` carries a map from labels (root, middle table, last-level table or
page, of an address space) to the page handed out for it. No decision reads it.
The heap invariant says that memory is exactly the encoding of the book, so a
hardware walk can be computed from the book (`PageTables.WalkIsBookWalk`,
`Heap.WalkIsSpaceLeaf`), and sharing is visible: the kernel's gigabyte of every
space has the labels of the template.

*One step function.* `Machine.Next` is the machine: user instructions are chosen
freely, so are input, interrupt times, firmware answers and cache fills. Kernel code
runs in one step from a trap to the next call of `yield`, because it runs with
interrupts off; the idle loop, which runs with interrupts on, takes single steps,
one for each read of a process slot in `has_live_process`.

*Space numbers.* Process slot `i` owns address space `i + 1`; space 0 is the kernel
template. Slot 0 is idle, with pid 0; user slot `i` has pid `i + 1`.

## Where the code and its documentation differ

- kernel.ld asserts 8 MB of free RAM and calls it an estimate for two processes.
  `BootMemory.StartExactly` says for every amount of memory and all images whether
  booting succeeds: if and only if free memory holds the kernel tables, the root of
  idle and, for each process, its root and what its image begins of pages and 2 MB
  blocks. So 8 MB do not suffice in general (`BootMemory.FloorIsNotEnough`), and even
  if booting succeeds, a later page fault may find no page: `Exhaustion.LimitIsExact`
  says that no run ever panics for want of memory if and only if free memory reaches
  the limit of `Budget` (on qemu-virt 4143 pages for the two processes created).
- common.c explains why the most negative value must be negated as unsigned; the
  `print_decimal` of ulib.c negates a signed `int` all the same, which C leaves
  undefined for INT_MIN. tests/unit/test_user.c:87-88 expects -2147483648 there, so
  the negation is taken to wrap.

## Model

| member | source | states |
|---|---|---|
| Pte.PtIndex | memory.c:28-30 | the shift and mask select the VPN field that Sv39 defines for the level |
| Pte.PteToPaddr | memory.h:34-36 | the shift and mask give the page number field times the page size, whatever attribute bits lie above it |
| Pte.PointerExpr | memory.c:59-60 | the expression for a non-leaf entry is the number with that page in its page number field and V as its only flag |
| Pte.PointerFields | memory.c:57-60 | such an entry is a valid Sv39 pointer: V set, R, W, X, A, D, U and attributes clear |
| Pte.LeafExpr | memory.c:70-71 | the OR of page number, flags, A, D, V and attributes loses no bit: it is their sum |
| Pte.LeafFields | memory.c:65-71 | each hardware field of a leaf entry reads as what map_page was given, with A, D and V set |
| Pte.IsAligned | kernel.h:141-143 | the mask test is divisibility by the page size |
| Pte.AlignDown | kernel.h:79 | the mask rounds down to a multiple of the page size |
| Pte.BeyondLowerHalf | memory.c:50-51 | the shift test refuses exactly the addresses from 2^38 on |
| MemoryCode.Memory.constructor | memory.c:13 | at boot the next page is the first free one, no template exists, and RAM holds anything |
| MemoryCode.Memory.PutByte | memory.c:20 | a store of the kernel goes through the translation in force; a fault would be recorded, and is not |
| MemoryCode.Memory.GetWord | memory.c:56 | a load of the kernel likewise |
| MemoryCode.Memory.AllocPages | memory.c:11-22 | zeroes the pages it returns and changes no other word, or panics past the end; the size is a 32-bit product |
| MemoryCode.Memory.Clear | common.c:104-109 | the byte loop of memset zeroes exactly the words of the pages |
| MemoryCode.Memory.CopyIn | common.c:96-102 | the byte loop of memcpy puts each byte at its place and changes no other byte |
| MemoryCode.Memory.CopyPageBytes | process.c:94-96 | copying a page byte by byte copies its 512 words |
| MemoryCode.Memory.NextTable | memory.c:54-63 | one level of the descent: the table below an entry, made, zeroed and linked if absent |
| MemoryCode.Memory.MapPage | memory.c:40-72 | the loop over levels does exactly the specified mapping, with the same panics, under any satp that maps the kernel; on the way no access faults |
| PageTables.WalkIsBookWalk | memory.c:40-72 | in every heap that the kernel builds, the hardware walk follows the book and the last-level entry |
| PageTables.MapPageUpdatesWalk | memory.c:40-72 | map_page is a finite-map update of the hardware walk: the new leaf at its page, in its own space or, for a kernel address, in all spaces; every other address of every root keeps its walk |
| PageTables.MapPageBook | memory.c:53-63 | map_page hands out pages for the two tables on its path only, and only if they are absent |
| MemoryCode.Memory.BuildTemplate | process.c:86-92 | the loop over the kernel range builds the template |
| MemoryCode.Memory.CreatePageTable | process.c:85-97 | the template is built on the first call only, and every caller gets a copy of its root |
| AddressSpaces.TemplateIsHeap | process.c:86-92 | the finished template maps every kernel page to itself, and no other space exists |
| AddressSpaces.NewRootKeepsHeap | process.c:94-96 | a copied root starts an empty user space that shares the kernel tables; nothing handed out before changes |
| Heap.WalkIsSpaceLeaf | process.c:85-97 | the complete hardware view of any space: its user pages, the kernel range onto itself, and nothing else |
| FlatView.TranslateUser | kernel.c:170-175 | a user access reaches exactly the pages given to that process in its 8 MB, for reading, writing and executing |
| FlatView.KernelIdentity | process.c:88-91 | in supervisor mode every kernel address translates to itself and no user page is reachable; the kernel range is out of reach of user mode |
| FlatView.WalkInNumbers | process.c:85-97 | the complete hardware walk of every space in numerals: at which addresses there is a leaf, and which number it is |
| FlatView.Isolation | process.c:85-97 | two user-reachable virtual pages never share memory, and none of it is a table, kernel memory or memory not handed out |
| MemoryCode.Memory.GivePage | kernel.c:166-175 | allocating, filling and mapping one user page, as the fault handler and the loader do |
| UserPages.GiveKeepsHeap | kernel.c:166-175 | giving a page keeps the heap the exact encoding of its book |
| UserPages.GiveFillsPage | process.c:188-196 | the new page holds the copied bytes and zeros behind them |
| FlatView.FaultKeepsFlat | kernel.c:150-179 | a page fault changes no byte of the flat memory of any process |
| FlatView.GiveMakesProgress | kernel.c:116-121 | once the page is given, every kind of access to it succeeds |
| FlatView.StoreIsLocal | memory.c:59-60 | a user store hits a page of its own process and leaves all tables in order |
| FlatView.StoreKeepsWalks | memory.c:59-60 | a user store changes no translation of any space |
| FlatView.StoreUpdatesFlat | process.c:187-201 | a user store changes one byte of its own flat memory and no byte of another process |
| MemoryCode.Memory.LoadImage | process.c:187-201 | the load loop, page by page, with its panics |
| AddressSpaces.LoadImageFlat | process.c:187-201 | after the load the owner sees the image at its place, everything else is as before for everyone |
| Budget.PagesWithinLimit | memory.c:11-22 | pages handed out never exceed the kernel tables, one root for idle, and 2054 pages for each user process |
| Budget.QemuVirtLimits | platform/qemu-virt/platform.ld:13 | on qemu-virt that is 34 kernel tables, 4143 pages for two processes, 14413 for seven |
| Budget.GiveSucceeds | kernel.c:161-175 | with that many free pages a fault on an empty user page is always served |
| Budget.MapPageExact | memory.c:40-72 | map_page panics exactly if an address is unaligned, vaddr is beyond the lower half, or a page is wanting for the tables it lacks, and takes pages for those only |
| Budget.GiveExact | kernel.c:166-175 | giving a user page takes that page and the missing tables of its path, and panics exactly if they are not there |
| KernelView.SeesAt | process.c:85-97 | if the walk of each kernel address is the identity leaf and so are the cached ones, every kernel access of any kind goes where it seems to go |
| KernelView.MappedSees | process.c:85-97 | with upper tables in order and the kernel entries in place, under the root of any space the walks of all kernel addresses are identity leaves, whatever state the user half is in |
| KernelView.FreshKeepsMapped | memory.c:20 | that survives any contents of a page that is being cleared or filled |
| KernelView.TableKeepsMapped | memory.c:59-60 | and the hanging of a new table |
| KernelView.LeafKeepsMapped | memory.c:70-71 | and the writing of a user leaf |
| KernelView.FillKeepsCached | memory.h:59-61 | a cache fill at any of these stages caches identity leaves only |
| Assembly.Hart.SaveFrame | exception.c:16-58 | the 31 stores put the interrupted registers, sp included, on the stack that sscratch points to, in the order of struct trap_frame; sscratch is back at the top |
| Assembly.Hart.RestoreFrame | exception.c:61-92 | the 31 loads give all registers from the frame |
| TrapFrame.RestoreUndoesSave | exception.c:16-92 | saving and restoring is the identity on the registers |
| TrapFrame.FrameLayout | kernel.h:112-115 | the order of the registers in struct trap_frame, by register number |
| TrapFrame.FrameA0 | kernel.c:193-228 | writing f->a0 changes a0 and no other register; f->a3 and f->a0 are the caller's |
| Assembly.Hart.PushContext | process.c:117-135 | the 13 pushes lay out a context for switch_context at the stack top |
| Assembly.Hart.SwitchContext | process.c:19-58 | the stores, the two stack pointer accesses and the loads exchange contexts |
| KernelStacks.AwayIsUntouched | process.c:246-277 | while others run in the kernel, the stack and the saved sp of a process that is away do not change |
| KernelStacks.SwitchComesBack | process.c:19-58 | a process switched away and back finds its ra, s0 to s11, sp and its stack, trap frame included |
| KernelStacks.FrameComesBack | exception.c:16-92 | a trap frame end to end: the registers stored on the own stack are those that the frame gives after any time away |
| KernelStacks.FirstSwitchEnters | process.c:117-135 | the first switch to a new process goes to its entry point with sp at the stack top |
| KernelCode.Kernel.WakeExpiredProcesses | process.c:217-223 | exactly the SLEEPING slots whose time has come become RUNNABLE |
| KernelCode.Kernel.HasLiveProcess | process.c:232-244 | without interrupts: 1 if and only if some slot with a positive pid is RUNNABLE or SLEEPING, which in a process table in order is: 0 if and only if every user process has exited |
| KernelCode.Kernel.FindNext | process.c:247-255 | the scan of yield finds the process that the specification picks |
| KernelCode.Kernel.Yield | process.c:246-277 | yield installs satp, sscratch and an empty translation cache with the process it switches to, or does nothing |
| Scheduler.PickIsRunnable | process.c:247-259 | the process picked is RUNNABLE; it is idle if and only if no user process is RUNNABLE |
| Scheduler.PickIsNext | process.c:247-255 | it is the nearest RUNNABLE one after the current slot around the table of eight; from idle, the lowest |
| Scheduler.PickComesCloser | process.c:247-255 | if a waiting RUNNABLE process is passed over, the cyclic distance to it strictly falls |
| KernelCode.Kernel.BlockCurrentProcess | kernel.c:285-291 | SLEEPING until the 64-bit wake time, then yield |
| KernelCode.Kernel.HandleInterrupt | kernel.c:329-344 | a timer interrupt re-arms, wakes and yields; any other interrupt, or a timer that cannot be armed, panics |
| KernelCode.Kernel.HandleSyscall | kernel.c:193-228 | the five system calls, and a PANIC for any other number |
| KernelCode.Kernel.SyscallSleep | kernel.c:267-276 | zero and values above 0x7fffffff return at once, all others block |
| KernelCode.Kernel.HandlePageFault | kernel.c:150-179 | faults from supervisor mode or outside the user range panic; others get a page and return to the same pc, by loads and stores that go through the current satp and cache, none of which faults |
| KernelCode.Kernel.ServeFault | kernel.c:166-178 | in every memory on the way, from the first cleared byte to the last leaf, each kernel address is reached at itself |
| KernelCode.SwitchSeesItself | process.c:262-271 | so it is inside yield, between the write of satp and the flush |
| KernelCode.Kernel.Step | kernel.c:90-132 | all that kernel code does in answer to a trap, or on from a switch, is the machine's step for that event, clock included |
| KernelCode.Kernel.HandleTrap | kernel.c:90-132 | which scause leads to which handler, and a PANIC for all others |
| KernelCode.Kernel.UserEntry | kernel.c:55-76 | first entry to user mode: the argument in a0, pc at USER_BASE, interrupts on |
| KernelCode.Kernel.Continue | kernel.c:240-256 | what each suspended kernel call chain does when yield returns, the polling loop of getchar included |
| Invariant.StepInv | kernel.c:90-132 | every step that does not panic keeps the invariant: heap, slots, satp and sscratch of the current process, coherent cache, suspended call chains, the progress of the liveness scan |
| Invariant.RunInv | kernel.c:90-132 | hence every run keeps it |
| Invariant.YieldInv | process.c:246-277 | whoever yield switches to, shared registers, cache and call chains are in order |
| Invariant.ReachIsTranslate | memory.h:59-61 | with cached positive and negative translations, a user access is that of a fresh walk of its own tables |
| Invariant.FaultInv | kernel.c:166-178 | flushing one page keeps the cache coherent after a fault |
| PrivateMachines.TimerCpu | kernel.c:101-107 | a timer interrupt is invisible to whom it interrupts and to everyone else, although sepc and sstatus are shared |
| PrivateMachines.EcallCpu | kernel.c:193-228 | a system call is one step of the caller's private processor: a0 and pc + 4, nothing else |
| PrivateMachines.ResumeCpu | kernel.c:240-291 | a blocked call returns its result to the registers and pc that were saved |
| PrivateMachines.FaultView | kernel.c:150-179 | a page fault is invisible: no register and no byte changes, for anyone |
| Refinement.StepMatches | kernel.c:90-132 | every step of the machine is one step of the private machine of the process concerned, and nothing to all others |
| Refinement.RunsArePrivate | kernel.c:90-132 | over every run each process is its own private machine with eager flat memory, executing its own instructions and system calls |
| Scheduling.OtherSlots | process.c:217-223 | nothing but a tick touches the slot of a process that is not current, and a tick only wakes it |
| Scheduling.NoStarvation | process.c:246-277 | a RUNNABLE process that is not chosen stays RUNNABLE and is chosen within PROCS_MAX - 1 calls of yield |
| Scheduling.NoStarvationOnceWoken | process.c:217-277 | the same counted from the tick that wakes it, from idle too |
| KernelTime.KernelRun | kernel.c:240-256 | inside the kernel every continuation uses up one RUNNABLE process, exactly |
| KernelTime.KernelIsShort | kernel.c:285-291 | from any trap at most RUNNABLE processes + 1, hence PROCS_MAX, switches until interrupts are open again |
| Sleeping.SleepRequest | kernel.c:285-291 | the ecall leaves the process SLEEPING until now + ms * TICKS_PER_MS, without wrap-around |
| Sleeping.SleepsUntilDue | process.c:217-223 | never early: until the first tick at or after that time the process sleeps and is not chosen |
| Sleeping.WakesWhenDue | process.c:217-223 | never lost: that tick makes it RUNNABLE |
| Sleeping.SleepIsExact | kernel.c:267-291 | both, for a whole run from the ecall to the tick |
| Sleeping.ExitIsFinal | kernel.c:303-312 | EXITED is permanent and an exited process is never current again |
| Sleeping.ShutdownIsSound | kernel.c:469-481 | interrupted between any two reads of the scan, the power still goes off only when every user process has exited |
| Sleeping.ScanComesCloser | process.c:232-244 | once all have exited, every step of the idle loop comes closer to shutdown |
| Sleeping.ShutdownComes | kernel.c:469-481 | once all have exited, no run has more than 3 * PROCS_MAX + 3 idle instructions, whatever interrupts come between, before the power is off |
| Sleeping.ExitedTick | kernel.c:459-481 | a tick in the idle loop then returns to the same instruction |
| Faults.FaultMakesProgress | kernel.c:116-121 | after a user fault is served the same page is reached through the cache, at the same pc and registers |
| Faults.FaultsUsePages | kernel.c:159-178 | page faults taken plus pages still unmapped is constant over every run |
| Faults.FaultsAreBounded | kernel.c:159-178 | at most 2048 page faults in the life of a process |
| Faults.PanicExactly | kernel.c:90-132 | with enough pages, a PANIC happens if and only if a user access leaves its range, an exception or system call is unknown, or the timer cannot be armed |
| Faults.NoPanic | kernel.c:303-312 | over whole runs with enough pages: no memory exhaustion, no exited process scheduled, and no page fault at any access of kernel code |
| Invariant.KernelSeesItself | kernel.c:152-157 | in every state where kernel code runs, whoever's satp is in force, kernel accesses to kernel memory translate to themselves, through the cache too |
| Invariant.TrapSeesItself | exception.c:16-58 | also right after a trap, when kernel_entry begins |
| Faults.UsersAreIsolated | process.c:85-97 | isolation in every reachable state |
| Faults.SharedRegisters | process.c:262-276 | in every reachable state satp and sscratch are those of the current process, modes fit the code that runs, interrupts are off in the kernel, and every suspended process returns to user mode |
| KernelLaws.CallReturns | kernel.c:193-228 | putchar, getpid, and sleep for zero or a negative time return at once: user code of the same process at pc + 4 with the answer in a0; no other register, slot or cached translation changes, and no turn is given up |
| KernelLaws.UnknownCallPanics | kernel.c:224-227 | a number in a3 other than 1 to 5 is a PANIC, and no other call is |
| KernelLaws.GetcharPolls | kernel.c:203-206 | getchar stays in the kernel, in the same process, to look for a key |
| KernelLaws.PollDelivers | kernel.c:240-245 | a key that is there is returned in a0, at pc + 4, with no turn given up |
| KernelLaws.EmptyPollWaits | kernel.c:247-255 | without a key the process is SLEEPING until exactly 10 ms later, with the same call, and gives up its turn to the next in the round |
| KernelLaws.PollWaitsOneTick | kernel.c:247-255 | over every run: it sleeps until the first tick at or after that time, which makes it RUNNABLE |
| KernelLaws.PollAnswers | kernel.c:240-256 | however long it was away, a key at its next poll is returned to the registers and pc of the getchar call |
| KernelLaws.SleepWaits | kernel.c:267-291 | sleep for 1 to 0x7fffffff ms: SLEEPING until now + ms * TICKS_PER_MS, registers saved, and the turn given up |
| KernelLaws.SleepReturns | kernel.c:213-217 | a sleep that is over returns 0 in a0, at pc + 4 |
| KernelLaws.SleepAnswers | kernel.c:213-217 | from the ecall over any time away back to the code that called it, with all its other registers |
| KernelLaws.SecondsOnTheClock | ulib.c:52-62 | user sleep(s) on the machine: it wakes after 1000 * min(s, 2000000) * TICKS_PER_MS clock ticks |
| KernelLaws.ExitEnds | kernel.c:303-309 | exit leaves the process EXITED and gives up the turn |
| KernelLaws.TickEndsTurn | kernel.c:329-344 | a tick wakes exactly those SLEEPING whose time has come, saves registers and pc of whom it interrupts, and passes the turn to the next in the round, with its root, its trap stack and no old cached translation |
| KernelLaws.TickReturns | kernel.c:101-107 | whoever was interrupted goes on at the same pc, in the same mode, with the same registers |
| KernelLaws.TickComesBack | kernel.c:101-107 | and does so however long it was away |
| KernelLaws.AwayKeepsSlot | process.c:246-277 | over any run in which a process is not current, nothing of its slot changes but its state |
| KernelLaws.FirstRun | kernel.c:55-76 | a new process starts in user mode at 0x1000000 with its argument in a0 and interrupts on |
| KernelLaws.FaultRetries | kernel.c:150-179 | a fault outside 0x1000000 to 0x17fffff is a PANIC; otherwise the same instruction is tried again with the same registers, and one cached translation is gone |
| KernelCode.Kernel.AllocProcess | process.c:104-144 | the first UNUSED slot, set up with its own space, or a PANIC |
| KernelCode.Kernel.CreateProcess2 | process.c:171-207 | a process from an image and an argument |
| Boot.ProcessCreated | process.c:171-207 | creating a process keeps the tables of all earlier ones in order |
| KernelCode.Kernel.KernelMain | kernel.c:397-458 | booting up to the switch in the first yield, for any list of programs |
| Startup.StartInv | kernel.c:455-458 | the first yield installs satp and sscratch, and the machine satisfies the invariant |
| Startup.StartBorn | process.c:171-207 | every process is born with its pid, its argument, its image and zeros behind it; user accesses of any kind succeed exactly on the pages that hold bytes of its image |
| Startup.LoadImageVacant | process.c:187-201 | a user page is mapped at birth if and only if it holds bytes of the image |
| Startup.SystemIsPrivate | kernel.c:449-458 | from the first switch on, over every run, each process is a private machine that starts with its own program |
| BootMemory.TemplateExact | process.c:86-92 | the loop over the kernel range takes exactly a middle table and one table for each 2 MB begun, and panics exactly without them |
| BootMemory.ProcessExact | process.c:171-207 | create_process2 takes exactly a root and the tables and pages of its image, and panics exactly without them |
| BootMemory.StartExactly | kernel.ld:45 | booting succeeds if and only if the timer can be armed, there is a slot for each process, and free memory holds the sum of these |
| BootMemory.StartSucceeds | memory.c:17-18 | so with pages for the limit and a timer booting does not panic |
| BootMemory.FloorIsNotEnough | kernel.ld:45 | and 8 MB are too little for any image that reaches the last user page |
| Exhaustion.Exhaust | kernel.c:169-170 | with fewer pages than the limit there is, from a state in which all processes are at work, a run with nobody at fault that ends in a PANIC for want of memory |
| Exhaustion.LimitIsExact | memory.c:17-18 | the system boots and no run ever panics for want of memory if and only if the free pages reach the limit |
| Exhaustion.SystemNeverPanics | memory.c:17-18 | with pages for the limit the system boots, and over every run there is no PANIC until somebody is at fault, the invariant holds, and the page limit holds |
| Readline.Readline | ulib.c:210-255 | for every input: the buffer is the fold of the edits up to Enter, NUL-terminated in bounds; the bytes printed are those of the specification; size <= 0 reads nothing |
| Readline.LineIsText | ulib.c:241-250 | the line always fits and every byte of it is between 0x20 and 0x7e, so no NUL inside |
| Readline.KeyByKey | ulib.c:217-251 | what each key does to line and screen, in numerals: 0x20 to 0x7e are appended and echoed while there is room, 0x08 and 0x7f take back the last byte and print 0x08 0x20 0x08, every other key but Enter does nothing |
| Readline.LineEndsAtEnter | ulib.c:224-228 | the line ends at the first 0x0a or 0x0d |
| Readline.PlainLine | ulib.c:241-250 | without erasing, the line is the printable input cut at size - 1 |
| Readline.EraseUndoes | ulib.c:230-239 | an erase takes back the last character and nothing else |
| Readline.ScreenAgrees | ulib.c:210-255 | on a cursor-and-line terminal the row always shows what stood there before, then exactly the buffer, with the cursor behind it |
| Readline.EnterFinishesRow | ulib.c:224-228 | after Enter the finished row is the line, and a new row begins |
| Decimal.HighestDivisor | common.c:14-16 | the first loop finds the highest power of ten, and its product never overflows |
| Decimal.EmittedReads | common.c:18-22 | the digits emitted, read by Horner's rule, are the number |
| Decimal.DigitByDigit | common.c:18-22 | what a text of digits denotes, independent of the printers: each further digit is worth itself, those before it ten times as much |
| Decimal.Canonical | common.c:8-22 | exactly which texts denote a number, with which sign: no leading zero, no sign on zero |
| Decimal.PrintSigned | common.c:4-23 | reading the text printed gives the value, for every 64-bit long, and the text is canonical |
| Decimal.PrintDecimal | ulib.c:155-179 | the same for every 32-bit int, INT_MIN with wrapping negation |
| Decimal.OneText | ulib.c:155-179 | a number has one canonical text, so both printers agree |
| Decimal.PrintHex | common.c:26-31 | exactly the digits asked for, which read as the low bits of the value |
| Decimal.NextHex | common.c:26-31 | what a hexadecimal text denotes, digit by digit of 0123456789abcdef |
| UserSleep.SleepMs | ulib.c:38-44 | any positive int reaches a0 and passes the kernel's filter as it is; no other value makes a call |
| UserSleep.Sleep | ulib.c:52-62 | 1000 ms for each second up to 2000000 seconds, 2000000000 ms above, no call for zero and below |

## Left out

- Instructions are not decoded and their bytes are not fetched: a user step is any register change, one byte load, one byte store, an ecall or another exception, at an address that must be executable. Wider and page-straddling accesses are sequences of such steps.
- Kernel variables and kernel stacks are no words of the modelled RAM; the heap proofs use only that they lie below the free pages, and accesses to them are the addresses of `KernelAccess`. Between a call of yield and its return, the C frames of a process are a record of the call chain and of the two values that handle_trap keeps (`Call`); that stacks do keep them is what Assembly and KernelStacks prove, on a memory of their own.
- Assembly and KernelStacks assume that kernel C code stays on its own stack and does not overflow it.
- Pte.LeafExpr: does not take flag words other than R, W, X and U in a combination that Sv39 allows (map_page itself would accept any), because the kernel passes two fixed ones.
- MemoryCode.Memory.MapPage: needs the same of its flags, and the kernel's own use of address spaces: only the template may get new tables in the kernel's gigabyte (a root copied too early would not share them), and once paging is on only user pages are mapped.
- MemoryCode.Memory.AllocPages: the kernel asks for one page at a time; for 2^20 pages and more the 32-bit product is modelled as it wraps, and nothing further is claimed of it.
- Page-walk caches of non-leaf entries, address-space identifiers (all processes use 0), superpages, the instruction cache and memory ordering.
- satp stands for its page number field; the mode is Sv39 once the first yield has written it.
- SBI calls, console output and wfi: their answers are arbitrary, their output is not recorded. Output of different processes may mix, and nothing is said about that.
- scause, stval and sie: which trap is taken is part of the step, and the timer is the only interrupt enabled. Assembly before kernel_main, BSS clearing, linking and the build.
- KernelCode.Kernel.HasLiveProcess: does not model interrupts; the scan as the idle loop runs it is Machine.IdleStep, about which Sleeping.ShutdownIsSound speaks.
- Sleeping.SleepRequest: supposes that the clock is far enough from 2^64; beyond that the wake time wraps around.
- printf's format dispatch, print_string, strcpy, strcmp, print_hexadecimal (print_hex with eight digits) and the programs in user.c would add only easy members.
- Several harts, freeing memory and process creation after boot do not exist in the system.
