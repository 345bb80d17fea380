/** The whole machine as a state machine: processor, memory, translation cache
    and kernel. User code, input, interrupt times and cache fills are chosen by
    the environment; everything else is what the kernel's code does. */
module Machine {
  import opened Words
  import opened Sv39
  import opened Pte
  import opened PhysMemory
  import opened PageTables
  import opened Heap
  import opened UserPages
  import opened FlatView
  import opened TrapFrame
  import opened Scheduler

  const TICK_INTERVAL_MS: nat := 10
  const MAX_SLEEP_MS: nat := 0x7fff_ffff

  const SYS_PUTCHAR: nat := 1
  const SYS_GETCHAR: nat := 2
  const SYS_SLEEP: nat := 3
  const SYS_GETPID: nat := 4
  const SYS_EXIT: nat := 5

  /** Which code runs: a user program, the idle loop with interrupts on, or
      kernel code with interrupts off, where a call of yield() has just returned
      (or syscall_getchar is about to poll) in the current process. */
  datatype Where = UserCode | IdleCode | KernelCode

  /** A PANIC and a shutdown stop the machine for good. */
  datatype Power = On | Off | Panicked

  datatype Machine = Machine(
    lay: Layout, users: nat, ticksPerMs: nat,
    ram: Ram,
    slots: Slots, cur: nat, at: Where, power: Power,
    regs: Regs, pc: Word, mode: Mode,
    sepc: Word, sstatus: Status, satp: nat, sscratch: nat,
    tlb: map<nat, Leaf>, clock: nat,
    turns: nat, switches: nat)

  // ---- the idle loop: has_live_process and wfi in create_user_processes ----

  // Program points of the idle code. They stand for five distinct addresses of
  // the kernel image; the loop counter of has_live_process is in register S1.
  const IDLE_PID: Word := 0x8020_0000       // next slot: test its pid
  const IDLE_RUNNABLE: Word := 0x8020_0004  // read its state: RUNNABLE?
  const IDLE_SLEEPING: Word := 0x8020_0008  // read its state again: SLEEPING?
  const IDLE_WFI: Word := 0x8020_000c       // somebody is alive: wait and rescan
  const IDLE_OFF: Word := 0x8020_0010       // nobody was found alive: shutdown()

  predicate IdlePc(pc: Word) {
    pc == IDLE_PID || pc == IDLE_RUNNABLE || pc == IDLE_SLEEPING || pc == IDLE_WFI || pc == IDLE_OFF
  }

  function IdleStep(m: Machine): Machine
    requires |m.slots| == PROCS_MAX && |m.regs| == 32
  {
    var i := m.regs[S1];
    if m.pc == IDLE_PID then
      if i >= PROCS_MAX then m.(pc := IDLE_OFF)
      else if m.slots[i].pid <= 0 then m.(regs := m.regs[S1 := i + 1])
      else m.(pc := IDLE_RUNNABLE)
    else if m.pc == IDLE_RUNNABLE && i < PROCS_MAX then
      if m.slots[i].state == Runnable then m.(pc := IDLE_WFI) else m.(pc := IDLE_SLEEPING)
    else if m.pc == IDLE_SLEEPING && i < PROCS_MAX then
      if m.slots[i].state == Sleeping then m.(pc := IDLE_WFI)
      else m.(pc := IDLE_PID, regs := m.regs[S1 := i + 1])
    else if m.pc == IDLE_WFI then m.(pc := IDLE_PID, regs := m.regs[S1 := 0])
    else m.(power := Off)
  }

  // ---- address translation with the cache ----

  /** A cached translation of the page, or else a walk of the current root. */
  function Lookup(m: Machine, va: Word): Leaf {
    if va / PAGE_SIZE in m.tlb then m.tlb[va / PAGE_SIZE] else Walk(m.ram.mem, m.satp, va)
  }

  function Reach(m: Machine, va: Word, access: Access): Xlate {
    FromLeaf(Lookup(m, va), va, access, m.mode)
  }

  // ---- trap entry and return: hardware and kernel_entry ----

  predicate Tidy(m: Machine) {
    && |m.slots| == PROCS_MAX && m.cur < PROCS_MAX && m.sscratch < PROCS_MAX
    && |m.regs| == 32 && forall i :: 0 <= i < PROCS_MAX ==> |m.slots[i].frame| == FRAME_WORDS
  }

  /** The processor saves pc and mode and closes interrupts; kernel_entry saves
      31 registers on the stack that sscratch points to. */
  function TrapEntry(m: Machine): (t: Machine)
    requires Tidy(m)
    ensures Tidy(t)
  {
    m.(sepc := m.pc, sstatus := Status(false, m.sstatus.sie, m.mode), mode := Super, at := KernelCode,
       slots := m.slots[m.sscratch := m.slots[m.sscratch].(frame := FrameOf(m.regs, m.slots[m.sscratch].frame[31]))])
  }

  /** handle_trap writes sstatus and sepc back; kernel_entry reloads the registers
      from the frame on its own stack and executes sret. */
  function TrapReturn(m: Machine, pc: Word, status: Status): (t: Machine)
    requires Tidy(m)
    ensures Tidy(t)
  {
    m.(sepc := pc, pc := pc, mode := status.spp, sstatus := Status(status.spie, true, User),
       regs := RegsOf(m.slots[m.cur].frame), at := if status.spp == User then UserCode else IdleCode)
  }

  /** The end of a system call: a0 gets the result, and the ecall is stepped over. */
  function SyscallReturn(m: Machine, pc: Word, status: Status, v: Word): (t: Machine)
    requires Tidy(m)
    ensures Tidy(t)
  {
    var s := m.slots[m.cur];
    TrapReturn(m.(slots := m.slots[m.cur := s.(frame := s.frame[FRAME_A0 := v])]), (pc + 4) % WORD_LIMIT, status)
  }

  // ---- the scheduler ----

  /** yield(), called with the local state `call`; on a change of process satp,
      sscratch and the translation cache change with it. */
  function Yield(m: Machine, call: Call): (t: Machine)
    requires Tidy(m)
    ensures Tidy(t)
  {
    var slots := m.slots[m.cur := m.slots[m.cur].(call := call)];
    var k := Pick(slots, m.cur);
    if k == m.cur then m.(slots := slots, at := KernelCode, turns := m.turns + 1)
    else m.(slots := slots, at := KernelCode, turns := m.turns + 1, switches := m.switches + 1,
            cur := k, satp := slots[k].root, sscratch := k, tlb := map[])
  }

  /** In 64 bits. */
  function WakeTime(now: nat, ms: nat, ticksPerMs: nat): Word { (now + ms * ticksPerMs) % WORD_LIMIT }

  /** block_current_process. */
  function Block(m: Machine, now: nat, ms: nat, call: Call): (t: Machine)
    requires Tidy(m)
    ensures Tidy(t)
  {
    var s := m.slots[m.cur];
    Yield(m.(slots := m.slots[m.cur := s.(state := Sleeping, wake := WakeTime(now, ms, m.ticksPerMs))]), call)
  }

  // ---- traps from user code and from the idle loop ----

  /** handle_interrupt; `armed` is the firmware's answer to sbi_set_timer. */
  function TimerTrap(m: Machine, now: nat, armed: bool): (t: Machine)
    requires Tidy(m)
    ensures Tidy(t)
  {
    var e := TrapEntry(m);
    if !armed then e.(power := Panicked)
    else Yield(e.(slots := Wake(e.slots, now)), Tick(e.sepc, e.sstatus))
  }

  /** handle_syscall. */
  function EcallTrap(m: Machine, now: nat): (t: Machine)
    requires Tidy(m)
    ensures Tidy(t)
  {
    var e := TrapEntry(m);
    var s := e.slots[e.cur];
    var (num, arg) := (s.frame[FRAME_A3], s.frame[FRAME_A0]);
    if num == SYS_PUTCHAR then SyscallReturn(e, e.sepc, e.sstatus, 0)
    else if num == SYS_GETCHAR then e.(slots := e.slots[e.cur := s.(call := Getchar(e.sepc, e.sstatus))])
    else if num == SYS_GETPID then
      SyscallReturn(e, e.sepc, e.sstatus, s.pid)
    else if num == SYS_SLEEP then
      var ms := arg % 0x1_0000_0000;
      if ms == 0 || ms > MAX_SLEEP_MS then SyscallReturn(e, e.sepc, e.sstatus, 0)
      else Block(e, now, ms, Sleep(e.sepc, e.sstatus))
    else if num == SYS_EXIT then Yield(e.(slots := e.slots[e.cur := s.(state := Exited)]), Dead)
    else e.(power := Panicked)
  }

  /** What the kernel always knows of its memory: the heap is in order and every
      used slot has its own root page. */
  ghost predicate MemoryOk(m: Machine) {
    && HeapOk(m.lay, m.ram)
    && m.users < PROCS_MAX == |m.slots|
    && forall i :: 0 <= i <= m.users ==> RootOk(m, i)
  }

  ghost predicate RootOk(m: Machine, i: nat)
    requires i < |m.slots|
  {
    Root(i + 1) in m.ram.book && m.slots[i].root == m.ram.book[Root(i + 1)]
  }

  /** handle_page_fault, then the return to the faulting instruction. */
  function FaultTrap(m: Machine, va: Word): (t: Machine)
    requires Tidy(m) && MemoryOk(m) && m.cur <= m.users
    ensures Tidy(t)
  {
    var e := TrapEntry(m);
    if e.sstatus.spp == Super || !InUserRange(va) then e.(power := Panicked)
    else
      FaultReady(m, va);
      match GivePage(e.lay, e.ram, e.cur + 1, e.slots[e.cur].root, AlignDown(va), [])
      case Panic => e.(power := Panicked)
      case Done(ram) => TrapReturn(e.(ram := ram, tlb := e.tlb - {va / PAGE_SIZE}), e.sepc, e.sstatus)
  }

  lemma FaultReady(m: Machine, va: Word)
    requires Tidy(m) && MemoryOk(m) && m.cur <= m.users && InUserRange(va)
    ensures Tree(m.lay, m.ram) && Root(m.cur + 1) in m.ram.book
    ensures TrapEntry(m).slots[m.cur].root == m.slots[m.cur].root == m.ram.book[Root(m.cur + 1)]
    ensures Vpn(AlignDown(va), 2) != KERNEL_VPN2
  {
    assert RootOk(m, m.cur);
    UserVpns(AlignDown(va));
  }

  // ---- user instructions ----

  /** What one user instruction does; registers and jumps are arbitrary. */
  datatype Op =
    | Alu(regs: Regs, pc: Word)
    | LoadByte(va: Word, rd: nat, pc: Word)
    | StoreByte(va: Word, b: Byte, pc: Word)
    | Ecall(now: nat)
    | OtherTrap                       // any exception that is no page fault and no ecall

  function UserStep(m: Machine, op: Op): (t: Machine)
    requires Tidy(m) && MemoryOk(m) && m.cur <= m.users
    requires op.LoadByte? ==> op.rd < 32
  {
    if Reach(m, m.pc, Fetch) == Fault then FaultTrap(m, m.pc)
    else match op
      case Alu(regs, pc) => m.(regs := regs, pc := pc)
      case LoadByte(va, rd, pc) =>
        (match Reach(m, va, Load)
         case Fault => FaultTrap(m, va)
         case At(pa) =>
           var b := if pa / 8 < |m.ram.mem| then RamByte(m.ram.mem, pa) else 0;
           m.(regs := if rd == 0 then m.regs else m.regs[rd := b], pc := pc))
      case StoreByte(va, b, pc) =>
        (match Reach(m, va, Store)
         case Fault => FaultTrap(m, va)
         case At(pa) =>
           if pa / 8 < |m.ram.mem|
           then m.(ram := m.ram.(mem := PhysMemory.StoreByte(m.ram.mem, pa, b)), pc := pc)
           else m.(pc := pc))
      case Ecall(now) => EcallTrap(m, now).(clock := now)
      case OtherTrap => TrapEntry(m).(power := Panicked)
  }

  /** How a user instruction ends: in user code, or in one of three kinds of trap. */
  datatype Outcome = Completes | PageFault(va: Word) | Calls | OtherException

  function OutcomeOf(m: Machine, op: Op): Outcome {
    if Reach(m, m.pc, Fetch) == Fault then PageFault(m.pc)
    else match op
      case Alu(_, _) => Completes
      case LoadByte(va, _, _) => if Reach(m, va, Load) == Fault then PageFault(va) else Completes
      case StoreByte(va, _, _) => if Reach(m, va, Store) == Fault then PageFault(va) else Completes
      case Ecall(_) => Calls
      case OtherTrap => OtherException
  }

  /** Completed instructions touch memory, registers and pc only. */
  lemma OutcomeIsStep(m: Machine, op: Op)
    requires Tidy(m) && MemoryOk(m) && m.cur <= m.users
    requires op.LoadByte? ==> op.rd < 32
    ensures match OutcomeOf(m, op)
      case Completes => UserStep(m, op) == m.(ram := UserStep(m, op).ram, regs := UserStep(m, op).regs, pc := UserStep(m, op).pc)
      case PageFault(va) => UserStep(m, op) == FaultTrap(m, va)
      case Calls => op.Ecall? && UserStep(m, op) == EcallTrap(m, op.now).(clock := op.now)
      case OtherException => UserStep(m, op).power == Panicked
  {
    hide Reach, FaultTrap, EcallTrap, PhysMemory.StoreByte, RamByte, MemoryOk;
  }

  // ---- the kernel resumes a suspended call chain ----

  /** What happens in the current process after yield() has returned there. `ch` is
      the firmware's answer to a poll of the console; `junk` the registers that
      kernel code leaves behind. */
  function Resume(m: Machine, now: nat, ch: int, junk: Regs): (t: Machine)
    requires Tidy(m) && |junk| == 32 && ch < WORD_LIMIT
  {
    match m.slots[m.cur].call
    case Entry =>
      // user_entry
      m.(regs := junk[0 := 0][A0 := m.slots[m.cur].arg], sepc := USER_BASE, pc := USER_BASE,
         mode := User, sstatus := Status(true, true, User), at := UserCode)
    case Boot =>
      // the idle loop begins, with interrupts on
      m.(regs := junk[0 := 0][S1 := 0], pc := IDLE_PID, sstatus := m.sstatus.(sie := true), at := IdleCode)
    case Tick(pc, status) => TrapReturn(m, pc, status)
    case Getchar(pc, status) =>
      if ch >= 0 then SyscallReturn(m, pc, status, ch)
      else Block(m, now, TICK_INTERVAL_MS, Getchar(pc, status)).(clock := now)
    case Sleep(pc, status) => SyscallReturn(m, pc, status, 0)
    case Dead => m.(power := Panicked)
  }

  // ---- one step of the machine ----

  datatype Event =
    | Instruction(op: Op)
    | TimerInterrupt(now: nat, armed: bool)
    | IdleInstruction
    | KernelContinues(now: nat, ch: int, junk: Regs)
    | KernelAccess(a: Word, access: Access)   // any fetch, load or store of kernel code
    | CacheFill(page: nat)
    | CacheEvict(page: nat)

  ghost predicate Enabled(m: Machine, e: Event) {
    && m.power == On
    && match e
       case Instruction(op) =>
         && m.at == UserCode
         && (op.Alu? ==> ValidRegs(op.regs)) && (op.LoadByte? ==> op.rd < 32)
         && (op.Ecall? ==> m.clock <= op.now)
       case TimerInterrupt(now, armed) =>
         m.clock <= now && (m.at == UserCode || (m.at == IdleCode && m.sstatus.sie))
       case IdleInstruction => m.at == IdleCode
       case KernelContinues(now, ch, junk) =>
         m.at == KernelCode && m.clock <= now && ch < WORD_LIMIT && |junk| == 32
       case KernelAccess(a, access) => m.at != UserCode && InKernelRange(m.lay, a)
       case CacheFill(page) => page * PAGE_SIZE < WORD_LIMIT
       case CacheEvict(page) => true
  }

  ghost function Next(m: Machine, e: Event): Machine
    requires Tidy(m) && MemoryOk(m) && m.cur <= m.users && Enabled(m, e)
  {
    match e
    case Instruction(op) => UserStep(m, op)
    case TimerInterrupt(now, armed) => TimerTrap(m, now, armed).(clock := now)
    case IdleInstruction => IdleStep(m)
    case KernelContinues(now, ch, junk) => Resume(m, now, ch, junk)
    case KernelAccess(a, access) => if Reach(m, a, access) == Fault then FaultTrap(m, a) else m
    case CacheFill(page) => m.(tlb := m.tlb[page := Walk(m.ram.mem, m.satp, page * PAGE_SIZE)])
    case CacheEvict(page) => m.(tlb := m.tlb - {page})
  }
}
