/** The kernel's code as it runs: the scheduler of process.c and the trap handlers
    of kernel.c, on the process table, the processor's registers and memory. Each
    method is shown to do exactly one step of Machine or Boot. */
module KernelCode {
  import opened Words
  import opened Sv39
  import opened Pte
  import opened PhysMemory
  import opened PageTables
  import opened Heap
  import opened FlatView
  import opened AddressSpaces
  import opened KernelView
  import opened MemoryCode
  import opened TrapFrame
  import opened Scheduler
  import opened Machine
  import Model = Machine
  import opened Invariant
  import opened Faults
  import Boot
  import opened Startup

  // scause
  const SCAUSE_INTERRUPT: nat := 0x8000_0000_0000_0000
  const SCAUSE_TIMER_INTERRUPT: nat := 5
  const SCAUSE_ECALL: nat := 8
  const SCAUSE_INST_PAGE_FAULT: nat := 12
  const SCAUSE_LOAD_PAGE_FAULT: nat := 13
  const SCAUSE_STORE_PAGE_FAULT: nat := 15

  /** The traps that the kernel has an answer to. */
  predicate Handled(scause: nat) {
    scause == 0x8000_0000_0000_0005 || scause == 8 || scause == 12 || scause == 13 || scause == 15
  }

  class Kernel {
    const memory: Memory
    const procs: array<Slot>
    const ticksPerMs: nat
    ghost var users: nat

    var current: nat                 // current_proc; idle_proc is procs[0]

    // the processor
    var regs: Regs
    var pc: Word
    var mode: Mode
    var sepc: Word
    var sstatus: Status
    var satp: nat
    var sscratch: nat                // whose stack top it is
    var tlb: map<nat, Leaf>
    var clock: nat

    var at: Where
    var power: Power
    ghost var turns: nat
    ghost var switches: nat

    ghost function Abs(): Machine
      reads this, memory, memory.ram, procs
    {
      Machine(memory.lay, users, ticksPerMs, memory.Abs(), procs[..], current, at, power, regs, pc, mode,
              sepc, sstatus, satp, sscratch, tlb, clock, turns, switches)
    }

    /** .bss at boot; the firmware leaves anything in the registers. */
    constructor (memory: Memory, procs: array<Slot>, ticksPerMs: nat, hart: Machine)
      requires procs[..] == Boot.BootSlots() && memory.kernelPageTable == 0 && Fresh(memory.lay, memory.Abs())
      requires |hart.regs| == 32 && memory.Steady(Bare)
      ensures this.memory == memory && this.procs == procs && this.ticksPerMs == ticksPerMs
      ensures Tables() == Boot.Tables(memory.Abs(), 0, Boot.BootSlots())
      ensures Abs() == hart.(lay := memory.lay, users := 0, ticksPerMs := ticksPerMs, ram := memory.Abs(),
        slots := Boot.BootSlots(), cur := 0, at := KernelCode, power := On, mode := Super, sscratch := 0,
        turns := 0, switches := 0)
      ensures AtBoot()
    {
      this.memory, this.procs, this.ticksPerMs := memory, procs, ticksPerMs;
      users, current, at, power, mode, sscratch, turns, switches := 0, 0, KernelCode, On, Super, 0, 0, 0;
      regs, pc, sepc, sstatus, satp, tlb, clock := hart.regs, hart.pc, hart.sepc, hart.sstatus, hart.satp, hart.tlb, hart.clock;
    }

    /** Interrupts are not on yet, no process exists, and nothing has been handed out. */
    ghost predicate AtBoot()
      reads this, memory, memory.ram, procs
    {
      && at == KernelCode && power == On && mode == Super && sscratch == 0 && turns == 0 && switches == 0
      && |regs| == 32 && Fresh(memory.lay, memory.Abs()) && memory.Steady(Bare)
      && Tables() == Boot.Tables(memory.Abs(), 0, Boot.BootSlots())
    }

    ghost function Tables(): Boot.Tables
      reads this, memory, memory.ram, procs
    {
      Boot.Tables(memory.Abs(), memory.kernelPageTable, procs[..])
    }

    // ---- process.c ----

    method WakeExpiredProcesses(now: nat)
      modifies procs
      ensures procs[..] == Wake(old(procs[..]), now)
    {
      for i := 0 to procs.Length
        invariant forall j :: 0 <= j < i ==> procs[j] == WakeSlot(old(procs[j]), now)
        invariant forall j :: i <= j < procs.Length ==> procs[j] == old(procs[j])
      {
        if procs[i].state == Sleeping && now >= procs[i].wake {
          procs[i] := procs[i].(state := Runnable);
        }
      }
    }

    /** has_live_process, without interrupts (the scan as the idle loop runs it is
        IdleStep): 0 if and only if every user process has exited. */
    method HasLiveProcess() returns (live: int)
      ensures live == 0 || live == 1
      ensures live == 1 <==>
        exists i :: 0 <= i < procs.Length && procs[i].pid > 0 && (procs[i].state == Runnable || procs[i].state == Sleeping)
      ensures Shape(procs[..], users) ==> (live == 0 <==> forall i :: 1 <= i <= users ==> procs[i].state == Exited)
      ensures Shape(procs[..], users) ==> (live == 0 <==> AllGone(procs[..], 8))
    {
      if Shape(procs[..], users) { LivenessIsExit(procs[..], users); }
      for i := 0 to procs.Length
        invariant forall j :: 0 <= j < i ==> procs[j].pid <= 0 || (procs[j].state != Runnable && procs[j].state != Sleeping)
      {
        if procs[i].pid <= 0 {
          continue;
        }
        if procs[i].state == Runnable || procs[i].state == Sleeping {
          return 1;
        }
      }
      return 0;
    }

    /** The scan of yield: the first RUNNABLE process after the current one, or idle. */
    method FindNext() returns (next: nat)
      requires procs.Length == PROCS_MAX && current < PROCS_MAX
      ensures next == Pick(procs[..], current)
    {
      var start := procs[current].pid;
      for i := 0 to PROCS_MAX
        invariant Search(procs[..], start, 0) == Search(procs[..], start, i)
      {
        var k := (start + i) % PROCS_MAX;
        if procs[k].state == Runnable && procs[k].pid > 0 {
          return k;
        }
      }
      return 0;
    }

    /** yield, up to the switch; `call` is what its caller will go on with. */
    method Yield(call: Call)
      requires Tidy(Abs())
      modifies this, procs
      ensures Abs() == Model.Yield(old(Abs()), call)
    {
      TidyParts(Abs());
      hide Pick, Tidy;
      Suspend(call);
      var next := FindNext();
      if next != current {
        SwitchTo(next);
      }
    }

    /** The current process's kernel stack holds its call chain, and yield is at work. */
    method Suspend(call: Call)
      requires current < procs.Length
      modifies this, procs
      ensures Abs() == old(Abs()).(slots := old(procs[..][current := procs[current].(call := call)]), at := KernelCode, turns := old(turns) + 1)
    {
      procs[current] := procs[current].(call := call);
      at, turns := KernelCode, turns + 1;
    }

    /** The second half of yield: address space, translation cache, trap stack, and
        the switch (see KernelStacks). */
    method SwitchTo(next: nat)
      requires next < procs.Length
      modifies this
      ensures Abs() == old(Abs()).(cur := next, satp := procs[next].root, sscratch := next, tlb := map[], switches := old(switches) + 1)
    {
      satp, sscratch, tlb := procs[next].root, next, map[];
      current, switches := next, switches + 1;
    }

    /** The scan of alloc_process. */
    method FindUnused() returns (i: nat)
      requires procs.Length == PROCS_MAX
      ensures i == Boot.FreeSlot(procs[..], 0)
    {
      i := 0;
      while i < PROCS_MAX && procs[i].state != Unused
        invariant i <= PROCS_MAX && Boot.FreeSlot(procs[..], 0) == Boot.FreeSlot(procs[..], i)
      {
        i := i + 1;
      }
    }

    /** alloc_process: the first UNUSED slot, with a space of its own. */
    method AllocProcess(call: Call) returns (ok: bool, i: nat)
      requires procs.Length == PROCS_MAX && Boot.TablesOk(memory.lay, Tables()) && memory.Steady(Bare)
      modifies procs, memory, memory.ram
      ensures memory.Steady(Bare)
      ensures ok <==> Boot.AllocProcess(memory.lay, old(Tables()), call).Done?
      ensures ok ==> Boot.AllocProcess(memory.lay, old(Tables()), call) == Done((Tables(), i))
      ensures ok ==> i < PROCS_MAX
    {
      hide TableFor, Fresh, HeapOk, Boot.FreeSlot;
      i := FindUnused();
      if i == PROCS_MAX {
        return false, i;
      }
      var root;
      ok, root := memory.CreatePageTable(i + 1);
      procs[i] := Slot(i + 1, Runnable, 0, root, 0, procs[i].frame, call);
    }

    /** create_process2. */
    method CreateProcess2(image: seq<Byte>, arg: Word) returns (ok: bool)
      requires procs.Length == PROCS_MAX && Boot.CanCreate(memory.lay, Tables(), image) && memory.Steady(Bare)
      modifies procs, memory, memory.ram
      ensures memory.Steady(Bare)
      ensures ok <==> Boot.CreateProcess(memory.lay, old(Tables()), image, arg).Done?
      ensures ok ==> Boot.CreateProcess(memory.lay, old(Tables()), image, arg) == Done(Tables())
    {
      hide Loading, Boot.AllocProcess, Boot.TablesOk, AddressSpaces.LoadImage;
      var i;
      ok, i := AllocProcess(Entry);
      if ok {
        procs[i] := procs[i].(arg := arg);
        ok := memory.LoadImage(i + 1, procs[i].root, image);
      }
    }

    // ---- kernel.c ----

    method UpdateCurrent(s: Slot)
      requires current < procs.Length
      modifies procs
      ensures Abs() == old(Abs()).(slots := old(procs[..][current := s]))
    {
      procs[current] := s;
    }

    /** block_current_process. */
    method BlockCurrentProcess(now: nat, ms: nat, call: Call)
      requires Tidy(Abs())
      modifies this, procs
      ensures Abs() == Model.Block(old(Abs()), now, ms, call)
    {
      ghost var m := Abs();
      TidyParts(m);
      hide Model.Yield, Tidy;
      var s := procs[current].(state := Sleeping, wake := WakeTime(now, ms, ticksPerMs));
      TidyUpdate(m, s);
      UpdateCurrent(s);
      Yield(call);
    }

    /** The processor takes a trap, and kernel_entry saves the registers (its 31
        stores are in Assembly). */
    method EnterTrap()
      requires Tidy(Abs())
      modifies this, procs
      ensures Abs() == TrapEntry(old(Abs()))
    {
      ghost var m := Abs();
      TidyParts(m);
      hide FrameOf, Tidy;
      sepc, sstatus, mode, at := pc, Status(false, sstatus.sie, mode), Super, KernelCode;
      procs[sscratch] := procs[sscratch].(frame := FrameOf(regs, procs[sscratch].frame[31]));
      assert procs[..] == TrapEntry(m).slots;
    }

    /** The end of handle_trap and of kernel_entry: CSRs, registers, sret. */
    method LeaveTrap(userPc: Word, savedStatus: Status)
      requires Tidy(Abs())
      modifies this
      ensures Abs() == TrapReturn(old(Abs()), userPc, savedStatus)
    {
      TidyParts(Abs());
      hide RegsOf, Tidy;
      WriteBack(userPc, savedStatus);
      regs := RegsOf(procs[current].frame);
    }

    /** csrw sepc, csrw sstatus and, in the end, sret. */
    method WriteBack(userPc: Word, savedStatus: Status)
      modifies this
      ensures Abs() == old(Abs()).(sepc := userPc, pc := userPc, mode := savedStatus.spp,
        sstatus := Status(savedStatus.spie, true, User), at := if savedStatus.spp == User then UserCode else IdleCode)
    {
      sepc, pc := userPc, userPc;
      mode, sstatus := savedStatus.spp, Status(savedStatus.spie, true, User);
      at := if mode == User then UserCode else IdleCode;
    }

    /** A system call that returns v in a0. */
    method FinishCall(userPc: Word, savedStatus: Status, v: Word)
      requires Tidy(Abs())
      modifies this, procs
      ensures Abs() == SyscallReturn(old(Abs()), userPc, savedStatus, v)
    {
      ghost var m := Abs();
      TidyParts(m);
      hide TrapReturn, Tidy;
      var s := procs[current].(frame := procs[current].frame[FRAME_A0 := v]);
      TidyUpdate(m, s);
      UpdateCurrent(s);
      LeaveTrap((userPc + 4) % WORD_LIMIT, savedStatus);
    }

    /** handle_interrupt. The machine was m when the trap came. */
    method HandleInterrupt(ghost m: Machine, code: nat, now: nat, armed: bool)
      requires Tidy(m) && Abs() == TrapEntry(m)
      modifies this, procs
      ensures code == 5 ==> Abs() == TimerTrap(m, now, armed)
      ensures code != 5 ==> Abs() == TrapEntry(m).(power := Panicked)
    {
      hide TrapEntry, Model.Yield;
      if code != SCAUSE_TIMER_INTERRUPT || !armed {
        power := Panicked;
        return;
      }
      WakeExpiredProcesses(now);
      Yield(Tick(sepc, sstatus));
    }

    /** handle_syscall. */
    method HandleSyscall(ghost m: Machine, now: nat)
      requires Tidy(m) && Abs() == TrapEntry(m)
      modifies this, procs
      ensures Abs() == EcallTrap(m, now)
    {
      hide TrapEntry, Model.Yield, Model.Block, SyscallReturn;
      var num, arg := procs[current].frame[FRAME_A3], procs[current].frame[FRAME_A0];
      if num == SYS_PUTCHAR {
        FinishCall(sepc, sstatus, 0);
      } else if num == SYS_GETCHAR {
        procs[current] := procs[current].(call := Getchar(sepc, sstatus));
      } else if num == SYS_GETPID {
        FinishCall(sepc, sstatus, procs[current].pid);
      } else if num == SYS_SLEEP {
        SyscallSleep(arg % 0x1_0000_0000, now);
      } else if num == SYS_EXIT {
        procs[current] := procs[current].(state := Exited);
        Yield(Dead);
      } else {
        power := Panicked;
      }
    }

    /** syscall_sleep, and the return from it when it does not block. */
    method SyscallSleep(ms: nat, now: nat)
      requires Tidy(Abs())
      modifies this, procs
      ensures Abs() == if ms == 0 || ms > MAX_SLEEP_MS
        then SyscallReturn(old(Abs()), old(sepc), old(sstatus), 0)
        else Model.Block(old(Abs()), now, ms, Sleep(old(sepc), old(sstatus)))
    {
      hide Model.Block, SyscallReturn, Tidy;
      if ms == 0 || ms > MAX_SLEEP_MS {
        FinishCall(sepc, sstatus, 0);
      } else {
        BlockCurrentProcess(now, ms, Sleep(sepc, sstatus));
      }
    }

    /** handle_page_fault and the return to the faulting instruction. A page fault of the
        kernel itself would be a PANIC; there is none. */
    method HandlePageFault(ghost m: Machine, faultAddr: Word)
      requires Tidy(m) && MemoryOk(m) && m.cur <= m.users && OwnsMmu(m) && Abs() == TrapEntry(m) && !memory.faulted
      modifies this, procs, memory, memory.ram
      ensures if FaultTrap(m, faultAddr).power == Panicked then power == Panicked else Abs() == FaultTrap(m, faultAddr)
      ensures !memory.faulted
      ensures m.mode == User && InUserRange(faultAddr) ==> Witnessed(TrapEntry(m), memory.trail, memory.ram[..])
    {
      hide TrapEntry, FaultTrap, Tidy, MemoryOk, Fixed, CanServe, OwnsMmu, Witnessed;
      FaultSteps(m, faultAddr);
      EntryOwnsMmu(m);
      if sstatus.spp == Super || faultAddr < USER_BASE || faultAddr >= USER_LIMIT {
        power := Panicked;
      } else {
        ServeFault(faultAddr);
      }
    }

    /** Allocate, map, flush, and return. All loads and stores on the way go through the
        current satp and cache, and in every memory on the way the kernel sees itself. */
    method ServeFault(va: Word)
      requires CanServe(Abs(), va) && OwnsMmu(Abs()) && mode == Super && !memory.faulted
      modifies this, memory, memory.ram
      ensures Fixed(old(Abs()), va).power == Panicked ==> power == Panicked
      ensures Fixed(old(Abs()), va).power != Panicked ==> Abs() == Fixed(old(Abs()), va)
      ensures !memory.faulted && Witnessed(old(Abs()), memory.trail, memory.ram[..])
    {
      hide PhysMemory.GivePage, Tree, TrapReturn, Tidy, AlignDown, OwnsMmu, Mapped, Sees, Cached;
      ghost var e := Abs();
      TidyParts(e);
      OwnerIsMapped(e);
      var mmu := Paged(satp, tlb);
      memory.trail := [memory.ram[..]];
      var ok := memory.GivePage(mmu, current + 1, procs[current].root, AlignDown(va), []);
      TrailWitnesses(e, memory.trail, memory.ram[..]);
      if ok && !memory.faulted {
        tlb := tlb - {va / PAGE_SIZE};
        TidyMemory(e, memory.Abs(), tlb);
        LeaveTrap(sepc, sstatus);
      } else {
        power := Panicked;
      }
    }

    /** handle_trap: what is done for which scause. */
    method HandleTrap(ghost m: Machine, scause: nat, stval: Word, now: nat, armed: bool)
      requires Tidy(m) && MemoryOk(m) && m.cur <= m.users && OwnsMmu(m) && Abs() == TrapEntry(m) && !memory.faulted
      modifies this, procs, memory, memory.ram
      ensures !memory.faulted
      ensures scause == 0x8000_0000_0000_0005 ==> Abs() == TimerTrap(m, now, armed)
      ensures scause == 8 ==> Abs() == EcallTrap(m, now)
      ensures scause == 12 || scause == 13 || scause == 15 ==>
        if FaultTrap(m, stval).power == Panicked then power == Panicked else Abs() == FaultTrap(m, stval)
      ensures !Handled(scause) ==> power == Panicked
    {
      hide TrapEntry, TimerTrap, EcallTrap, FaultTrap, Tidy, MemoryOk, OwnsMmu, Witnessed;
      if scause >= SCAUSE_INTERRUPT {
        HandleInterrupt(m, scause - SCAUSE_INTERRUPT, now, armed);
      } else if scause == SCAUSE_ECALL {
        HandleSyscall(m, now);
      } else if scause == SCAUSE_INST_PAGE_FAULT || scause == SCAUSE_LOAD_PAGE_FAULT || scause == SCAUSE_STORE_PAGE_FAULT {
        HandlePageFault(m, stval);
      } else {
        power := Panicked;
      }
    }

    /** user_entry: the argument in a0, user mode with interrupts on after sret. The
        other registers hold what kernel code left in them. */
    method UserEntry(junk: Regs)
      requires Tidy(Abs()) && |junk| == 32
      modifies this
      ensures Abs() == old(Abs()).(regs := junk[0 := 0][A0 := old(procs[current].arg)], sepc := USER_BASE, pc := USER_BASE,
        mode := User, sstatus := Status(true, true, User), at := UserCode)
    {
      regs := junk[0 := 0][A0 := procs[current].arg];
      WriteBack(USER_BASE, Status(false, true, User));
    }

    /** The idle loop begins, with interrupts on. */
    method StartIdle(junk: Regs)
      requires |junk| == 32
      modifies this
      ensures Abs() == old(Abs()).(regs := junk[0 := 0][S1 := 0], pc := IDLE_PID, sstatus := old(sstatus).(sie := true), at := IdleCode)
    {
      regs, pc, at := junk[0 := 0][S1 := 0], IDLE_PID, IdleCode;
      sstatus := sstatus.(sie := true);
    }

    /** What the current process goes on with after yield() returned there; in
        syscall_getchar, another poll of the console. */
    method Continue(now: nat, ch: int, junk: Regs)
      requires Tidy(Abs()) && |junk| == 32 && ch < WORD_LIMIT
      modifies this, procs
      ensures Abs() == Resume(old(Abs()), now, ch, junk)
    {
      hide Model.Block, SyscallReturn, TrapReturn;
      match procs[current].call {
        case Entry => UserEntry(junk);
        case Boot => StartIdle(junk);
        case Tick(userPc, status) => LeaveTrap(userPc, status);
        case Getchar(userPc, status) =>
          if ch >= 0 {
            FinishCall(userPc, status, ch);
          } else {
            BlockCurrentProcess(now, TICK_INTERVAL_MS, Getchar(userPc, status));
            clock := now;
          }
        case Sleep(userPc, status) => FinishCall(userPc, status, 0);
        case Dead => power := Panicked;
      }
    }

    /** Everything that kernel code does in answer to an event is the machine's step:
        from the trap, through kernel_entry and handle_trap, to the return or the next
        switch; or on from a switch. scause and stval are what the processor reports. */
    method Step(e: Event, scause: nat, stval: Word)
      requires Inv(Abs()) && Tidy(Abs()) && MemoryOk(Abs()) && Abs().cur <= Abs().users && Enabled(Abs(), e) && !memory.faulted
      requires IsKernelWork(Abs(), e, scause, stval)
      modifies this, procs, memory, memory.ram
      ensures !memory.faulted && Stepped(old(Abs()), e, Abs())
    {
      hide Inv, Tidy, MemoryOk, Resume, TimerTrap, OutcomeOf, UserStep;
      ghost var m := Abs();
      match e {
        case KernelContinues(now, ch, junk) => Continue(now, ch, junk);
        case TimerInterrupt(now, armed) =>
          TakeTrap(SCAUSE_INTERRUPT + SCAUSE_TIMER_INTERRUPT, 0, now, armed);
          clock := now;
        case Instruction(op) =>
          OutcomeIsStep(m, op);
          TakeTrap(scause, stval, if op.Ecall? then op.now else 0, true);
          if scause == SCAUSE_ECALL && op.Ecall? {
            clock := op.now;
          }
      }
    }

    method TakeTrap(scause: nat, stval: Word, now: nat, armed: bool)
      requires Inv(Abs()) && Tidy(Abs()) && MemoryOk(Abs()) && Abs().cur <= Abs().users && !memory.faulted
      modifies this, procs, memory, memory.ram
      ensures !memory.faulted && Trapped(old(Abs()), scause, stval, now, armed, Abs())
    {
      hide Inv, TrapEntry, TimerTrap, EcallTrap, FaultTrap, Tidy, MemoryOk, OwnsMmu;
      ghost var m := Abs();
      InvOwnsMmu(m);
      EnterTrap();
      HandleTrap(m, scause, stval, now, armed);
    }

    // ---- kernel_main ----

    /** The loop of create_user_processes, one process for each program. */
    method CreateUsers(programs: seq<Program>) returns (ok: bool)
      requires AllFit(programs) && Boot.Created(memory.lay, Tables(), 0) && memory.Steady(Bare)
      modifies procs, memory, memory.ram
      ensures memory.Steady(Bare)
      ensures ok <==> CreateAll(memory.lay, old(Tables()), 0, programs).Done?
      ensures ok ==> CreateAll(memory.lay, old(Tables()), 0, programs) == Done(Tables())
    {
      hide CreateNext, Boot.Created;
      ghost var k0 := Tables();
      var n := 0;
      while n < |programs|
        invariant n <= |programs| && Boot.Created(memory.lay, Tables(), n) && memory.Steady(Bare)
        invariant CreateAll(memory.lay, k0, 0, programs) == CreateAll(memory.lay, Tables(), n, programs[n..])
      {
        ok := CreateUser(n, programs[n]);
        assert programs[n..][0] == programs[n] && programs[n..][1..] == programs[n + 1..];
        if !ok {
          return;
        }
        n := n + 1;
      }
      ok := true;
    }

    method CreateUser(n: nat, program: Program) returns (ok: bool)
      requires |program.image| <= USER_SIZE && Boot.Created(memory.lay, Tables(), n) && memory.Steady(Bare)
      modifies procs, memory, memory.ram
      ensures memory.Steady(Bare)
      ensures ok <==> CreateNext(memory.lay, old(Tables()), n, program).Done?
      ensures ok ==> CreateNext(memory.lay, old(Tables()), n, program) == Done(Tables())
    {
      Boot.CreatedIsOk(memory.lay, Tables(), n);
      Boot.LoadIsReady(memory.lay, Tables(), n, program.image);
      hide Boot.CreateProcess, Boot.CanCreate, Boot.Created;
      ok := CreateProcess2(program.image, program.arg);
    }

    /** init_process_management. */
    method CreateIdle() returns (ok: bool)
      requires Tables() == Boot.Tables(memory.Abs(), 0, Boot.BootSlots()) && Fresh(memory.lay, memory.Abs())
      requires memory.Steady(Bare)
      modifies this`current, procs, memory, memory.ram
      ensures memory.Steady(Bare)
      ensures ok <==> Boot.CreateIdle(memory.lay, old(memory.Abs())).Done?
      ensures ok ==> Boot.CreateIdle(memory.lay, old(memory.Abs())) == Done(Tables()) && current == 0
    {
      hide Boot.AllocProcess, Fresh, Boot.BootSlots;
      FirstIsFree(memory.lay, Tables());
      var idle;
      ok, idle := AllocProcess(Entry);
      if ok {
        procs[idle] := procs[idle].(pid := 0);
        current := idle;
      }
    }

    /** kernel_main up to the switch in its first yield; `armed` is the firmware's
        answer to the first sbi_set_timer. */
    method KernelMain(programs: seq<Program>, armed: bool) returns (ok: bool)
      requires AtBoot() && AllFit(programs)
      modifies this, procs, memory, memory.ram
      ensures memory.Steady(Bare)
      ensures ok <==> Start(memory.lay, old(memory.Abs()), programs, ticksPerMs, armed, old(Abs())).Done?
      ensures ok ==> Start(memory.lay, old(memory.Abs()), programs, ticksPerMs, armed, old(Abs())) == Done(Abs())
    {
      hide Fresh, Boot.CreateIdle, CreateAll, Boot.Created, Model.Yield, Boot.BootSlots, Start, Tidy;
      ghost var hart, ram := Abs(), memory.Abs();
      StartFails(memory.lay, ram, programs, ticksPerMs, armed, hart);
      sstatus := sstatus.(sie := false);
      ok := CreateIdle();
      if !ok || !armed {
        return false;
      }
      StartGoesOn(memory.lay, ram, programs, ticksPerMs, hart, Tables());
      ok := CreateUsers(programs);
      if !ok {
        return;
      }
      users := |programs|;
      assert Abs() == BootMachine(memory.lay, Tables(), |programs|, ticksPerMs, hart);
      Yield(Call.Boot);
    }
  }

  /** Some slot counts as alive if and only if some user process has not exited. */
  lemma LivenessIsExit(slots: Slots, users: nat)
    requires Shape(slots, users)
    ensures (exists i :: 0 <= i < |slots| && slots[i].pid > 0 && (slots[i].state == Runnable || slots[i].state == Sleeping))
      <==> !(forall i :: 1 <= i <= users ==> slots[i].state == Exited)
    ensures AllGone(slots, 8) <==> forall i :: 1 <= i <= users ==> slots[i].state == Exited
  {
    forall i | 0 <= i < |slots|
      ensures slots[i].pid > 0 && (slots[i].state == Runnable || slots[i].state == Sleeping)
        <==> 1 <= i <= users && slots[i].state != Exited
    {
      assert SlotShape(slots, users, i);
    }
    if AllGone(slots, 8) {
      forall i | 1 <= i <= users ensures slots[i].state == Exited {
        assert Gone(slots, i) && SlotShape(slots, users, i);
      }
    }
    if forall i :: 1 <= i <= users ==> slots[i].state == Exited {
      forall i | 0 <= i < 8 ensures Gone(slots, i) { assert SlotShape(slots, users, i); }
    }
  }

  lemma FirstIsFree(lay: Layout, k: Boot.Tables)
    requires Boot.TablesOk(lay, k) && k.slots == Boot.BootSlots()
    ensures Boot.AllocProcess(lay, k, Entry).Done? ==> Boot.AllocProcess(lay, k, Entry).value.1 == 0
  {
    hide Boot.FreeSlot, TableFor, Fresh, HeapOk, Boot.BootSlots;
    assert Boot.BootSlots()[0] == UnusedSlot();
  }

  // Tidy, clause by clause, and under the updates above.

  lemma TidyParts(m: Machine)
    requires Tidy(m)
    ensures |m.slots| == PROCS_MAX && m.cur < PROCS_MAX && m.sscratch < PROCS_MAX && |m.regs| == 32
    ensures |m.slots[m.cur].frame| == FRAME_WORDS && |m.slots[m.sscratch].frame| == FRAME_WORDS
  {
  }

  lemma TidyUpdate(m: Machine, s: Slot)
    requires Tidy(m) && |s.frame| == FRAME_WORDS
    ensures m.cur < |m.slots| && Tidy(m.(slots := m.slots[m.cur := s]))
  {
  }

  lemma TidyMemory(m: Machine, ram: Ram, tlb: map<nat, Leaf>)
    requires Tidy(m)
    ensures Tidy(m.(ram := ram, tlb := tlb))
  {
  }

  /** What a trap with this scause has done to machine m, clock aside. */
  ghost predicate Trapped(m: Machine, scause: nat, stval: Word, now: nat, armed: bool, t: Machine)
    requires Tidy(m) && MemoryOk(m) && m.cur <= m.users
  {
    if scause == 0x8000_0000_0000_0005 then t == TimerTrap(m, now, armed)
    else if scause == 8 then t == EcallTrap(m, now)
    else if Handled(scause) then
      if FaultTrap(m, stval).power == Panicked then t.power == Panicked else t == FaultTrap(m, stval)
    else t.power == Panicked
  }

  /** What the processor reports for a user instruction that traps. */
  ghost predicate Reports(m: Machine, op: Op, scause: nat, stval: Word) {
    match OutcomeOf(m, op)
    case Completes => false
    case PageFault(va) =>
      && stval == va
      && scause == (if Reach(m, m.pc, Fetch) == Fault then 12
                    else if op.LoadByte? then 13 else 15)
    case Calls => scause == 8
    case OtherException => scause < 0x8000_0000_0000_0000 && !Handled(scause)
  }

  /** The events that kernel code answers. */
  ghost predicate IsKernelWork(m: Machine, e: Event, scause: nat, stval: Word) {
    e.KernelContinues? || e.TimerInterrupt? || (e.Instruction? && Reports(m, e.op, scause, stval))
  }

  /** t is m after the event; of a machine that has panicked, only that it has. */
  ghost predicate Stepped(m: Machine, e: Event, t: Machine)
    requires Tidy(m) && MemoryOk(m) && m.cur <= m.users && Enabled(m, e)
  {
    if Next(m, e).power == Panicked then t.power == Panicked else t == Next(m, e)
  }

  lemma InvOwnsMmu(m: Machine)
    requires Inv(m)
    ensures OwnsMmu(m)
  {
    hide Inv, Base, HeapOk, Walk;
    InvBase(m);
    BaseHeap(m);
    BaseCoherent(m);
    InvReady(m);
  }

  /** satp holds the current process's root, and the cache agrees with its tables. */
  ghost predicate OwnsMmu(m: Machine) {
    && HeapOk(m.lay, m.ram) && m.cur < |m.slots| && Root(m.cur + 1) in m.ram.book
    && m.satp == m.ram.book[Root(m.cur + 1)] && Coherent(m)
  }

  /** With memory x, every access of kernel code in m goes where it seems to go. */
  ghost predicate SeesItself(m: Machine, x: Mem) {
    forall a: Word, access :: InKernelRange(m.lay, a) ==> Reach(m.(ram := m.ram.(mem := x)), a, access) == At(a)
  }

  /** Every memory of the trail, which leads from that of m to `last`. */
  ghost predicate Witnessed(m: Machine, trail: seq<Mem>, last: Mem) {
    && |trail| > 0 && trail[0] == m.ram.mem && trail[|trail| - 1] == last
    && forall i :: 0 <= i < |trail| ==> SeesItself(m, trail[i])
  }

  lemma OwnerIsMapped(m: Machine)
    requires OwnsMmu(m)
    ensures var mmu := Paged(m.satp, m.tlb);
      m.lay.Ok() && |m.ram.mem| == m.lay.endF * 512
      && Mapped(m.lay, mmu, m.ram) && Cached(m.lay, mmu) && Sees(m.lay, mmu, m.ram.mem)
  {
    hide Walk, Tree, HeapOk, KernelHalf, IsKernelLeaf;
    HeapHasHalf(m.lay, m.ram);
    HeapIsTree(m.lay, m.ram);
    var mmu := Paged(m.satp, m.tlb);
    assert Mapped(m.lay, mmu, m.ram);
    MappedSees(m.lay, mmu, m.ram);
    forall page | page in m.tlb && BASE_F <= page < m.lay.endF ensures IsKernelLeaf(m.lay, page * PAGE_SIZE, m.tlb[page]) {
      assert InKernelRange(m.lay, page * PAGE_SIZE);
    }
  }

  /** Inside yield too, when satp already holds the next process's root and the cache
      still has entries of the last one. */
  lemma SwitchSeesItself(m: Machine, next: nat, a: Word, access: Access)
    requires Inv(m) && next <= m.users && next < |m.slots| && InKernelRange(m.lay, a)
    ensures Route(Paged(m.slots[next].root, m.tlb), m.ram.mem, a, access) == At(a)
  {
    hide Inv, OwnsMmu, Walk, KernelHalf, HeapOk, IsKernelLeaf, Route;
    InvOwnsMmu(m);
    OwnerIsMapped(m);
    InvReady(m);
    assert RootOk(m, next);
    var mmu := Paged(m.slots[next].root, m.tlb);
    OwnersHalf(m);
    MappedSees(m.lay, mmu, m.ram);
    SeesAt(m.lay, mmu, m.ram.mem, a, access);
  }

  lemma OwnersHalf(m: Machine)
    requires OwnsMmu(m)
    ensures KernelHalf(m.lay, m.ram)
  {
    HeapHasHalf(m.lay, m.ram);
  }

  lemma TrailWitnesses(m: Machine, trail: seq<Mem>, last: Mem)
    requires m.mode == Super && m.lay.Ok() && Cached(m.lay, Paged(m.satp, m.tlb))
    requires |trail| > 0 && trail[0] == m.ram.mem && trail[|trail| - 1] == last
    requires forall i :: 0 <= i < |trail| ==> Sees(m.lay, Paged(m.satp, m.tlb), trail[i])
    ensures Witnessed(m, trail, last)
  {
    hide Sees, Cached, Walk;
    forall i | 0 <= i < |trail| ensures SeesItself(m, trail[i]) {
      RouteIsReach(m, trail[i]);
    }
  }

  lemma RouteIsReach(m: Machine, x: Mem)
    requires m.mode == Super && m.lay.Ok() && Cached(m.lay, Paged(m.satp, m.tlb)) && Sees(m.lay, Paged(m.satp, m.tlb), x)
    ensures SeesItself(m, x)
  {
    hide Sees, Cached, Walk;
    forall a: Word, access | InKernelRange(m.lay, a)
      ensures Reach(m.(ram := m.ram.(mem := x)), a, access) == At(a)
    {
      SeesAt(m.lay, Paged(m.satp, m.tlb), x, a, access);
    }
  }

  lemma EntryOwnsMmu(m: Machine)
    requires Tidy(m) && OwnsMmu(m)
    ensures OwnsMmu(TrapEntry(m)) && TrapEntry(m).mode == Super
    ensures TrapEntry(m).sstatus.spp == m.mode
  {
    hide HeapOk, Walk;
  }

  ghost predicate CanServe(e: Machine, va: Word) {
    && Tidy(e) && Tree(e.lay, e.ram) && Root(e.cur + 1) in e.ram.book
    && e.slots[e.cur].root == e.ram.book[Root(e.cur + 1)] && Vpn(AlignDown(va), 2) != KERNEL_VPN2
  }

  /** A fault in the user range, seen from inside the kernel. */
  ghost function Fixed(e: Machine, va: Word): Machine
    requires CanServe(e, va)
  {
    match PhysMemory.GivePage(e.lay, e.ram, e.cur + 1, e.slots[e.cur].root, AlignDown(va), [])
    case Panic => e.(power := Panicked)
    case Done(ram) => TrapReturn(e.(ram := ram, tlb := e.tlb - {va / PAGE_SIZE}), e.sepc, e.sstatus)
  }

  lemma FaultSteps(m: Machine, va: Word)
    requires Tidy(m) && MemoryOk(m) && m.cur <= m.users
    ensures if TrapEntry(m).sstatus.spp == Super || !InUserRange(va) then FaultTrap(m, va).power == Panicked
      else CanServe(TrapEntry(m), va) && FaultTrap(m, va) == Fixed(TrapEntry(m), va)
  {
    hide PhysMemory.GivePage, Tree, MemoryOk, TrapEntry, TrapReturn, AlignDown;
    if InUserRange(va) { EntryServes(m, va); }
  }

  lemma EntryServes(m: Machine, va: Word)
    requires Tidy(m) && MemoryOk(m) && m.cur <= m.users && InUserRange(va)
    ensures CanServe(TrapEntry(m), va)
    ensures var e := TrapEntry(m); e.ram == m.ram && e.lay == m.lay && e.cur == m.cur
  {
    FaultReady(m, va);
    hide Tree, MemoryOk, FrameOf, AlignDown;
  }
}
