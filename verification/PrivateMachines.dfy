/** The kernel as an implementation of private machines: each process has its own
    processor and its own flat 8 MB of memory, and nothing that the machine does
    for others, or behind the scenes, is visible to it. */
module PrivateMachines {
  import opened Words
  import opened Sv39
  import opened Pte
  import opened PhysMemory
  import opened Heap
  import opened UserPages
  import opened FlatView
  import opened Budget
  import opened TrapFrame
  import opened Scheduler
  import opened Machine
  import opened Invariant

  /** The processor of a private machine. */
  datatype Cpu =
    | Unborn(arg: Word)               // not started; arg will be the argument of main
    | Ready(regs: Regs, pc: Word)     // about to execute the instruction at pc
    | AwaitInput(regs: Regs, pc: Word)
    | Asleep(regs: Regs, pc: Word)
    | Ended

  datatype Vm = Vm(pid: Word, cpu: Cpu, memory: seq<Byte>)

  /** What can happen to a private machine. */
  datatype VmEvent =
    | Quiet
    | Start(junk: Regs)
    | Compute(regs: Regs, pc: Word)
    | Read(off: nat, rd: nat, pc: Word)
    | Write(off: nat, b: Byte, pc: Word)
    | SystemCall
    | Input(ch: Word)
    | SleepOver

  /** The result of a system call goes to a0; all other registers are kept, and
      execution continues after the ecall. */
  function Returned(regs: Regs, pc: Word, v: Word): Cpu
    requires |regs| == 32
  {
    Ready(regs[A0 := v], (pc + 4) % WORD_LIMIT)
  }

  ghost predicate VmOk(v: Vm) {
    && |v.memory| == USER_SIZE
    && match v.cpu
       case Ready(regs, pc) => |regs| == 32
       case AwaitInput(regs, pc) => |regs| == 32
       case Asleep(regs, pc) => |regs| == 32
       case _ => true
  }

  ghost predicate Possible(v: Vm, e: VmEvent) {
    VmOk(v) && match e
      case Quiet => true
      case Start(junk) => v.cpu.Unborn? && |junk| == 32
      case Compute(regs, pc) => v.cpu.Ready? && |regs| == 32
      case Read(off, rd, pc) => v.cpu.Ready? && off < USER_SIZE && rd < 32
      case Write(off, b, pc) => v.cpu.Ready? && off < USER_SIZE
      case SystemCall => v.cpu.Ready?
      case Input(ch) => v.cpu.AwaitInput?
      case SleepOver => v.cpu.Asleep?
  }

  /** One step of a private machine. */
  function VmNext(v: Vm, e: VmEvent): Vm
    requires Possible(v, e)
  {
    match e
    case Quiet => v
    case Start(junk) => v.(cpu := Ready(junk[0 := 0][A0 := v.cpu.arg], USER_BASE))
    case Compute(regs, pc) => v.(cpu := Ready(regs, pc))
    case Read(off, rd, pc) => v.(cpu := Ready(if rd == 0 then v.cpu.regs else v.cpu.regs[rd := v.memory[off]], pc))
    case Write(off, b, pc) => v.(cpu := Ready(v.cpu.regs, pc), memory := v.memory[off := b])
    case SystemCall => v.(cpu := CallStep(v.pid, v.cpu.regs, v.cpu.pc))
    case Input(ch) => v.(cpu := Returned(v.cpu.regs, v.cpu.pc, ch))
    case SleepOver => v.(cpu := Returned(v.cpu.regs, v.cpu.pc, 0))
  }

  /** A system call, as its caller sees it: the number is in a3, the argument in a0. */
  function CallStep(pid: Word, regs: Regs, pc: Word): Cpu
    requires |regs| == 32
  {
    if regs[A3] == SYS_PUTCHAR then Returned(regs, pc, 0)
    else if regs[A3] == SYS_GETCHAR then AwaitInput(regs, pc)
    else if regs[A3] == SYS_GETPID then Returned(regs, pc, pid)
    else if regs[A3] == SYS_SLEEP then
      if 1 <= regs[A0] % 0x1_0000_0000 <= MAX_SLEEP_MS then Asleep(regs, pc) else Returned(regs, pc, 0)
    else Ended
  }

  // ---- the private machine inside the real one ----

  /** The processor state that a suspended process will find again. */
  function SlotCpu(s: Slot): Cpu
    requires |s.frame| == FRAME_WORDS
  {
    if s.state == Exited then Ended
    else match s.call
      case Entry => Unborn(s.arg)
      case Tick(pc, _) => Ready(RegsOf(s.frame), pc)
      case Getchar(pc, _) => AwaitInput(RegsOf(s.frame), pc)
      case Sleep(pc, _) => Asleep(RegsOf(s.frame), pc)
      case Boot => Ended
      case Dead => Ended
  }

  function CpuOf(m: Machine, p: nat): Cpu
    requires Tidy(m) && p < PROCS_MAX
  {
    if m.cur == p && m.at == UserCode then Ready(m.regs, m.pc) else SlotCpu(m.slots[p])
  }

  function View(m: Machine, p: nat): (v: Vm)
    requires Tidy(m) && p < PROCS_MAX
    ensures |v.memory| == USER_SIZE
  {
    Vm(m.slots[p].pid, CpuOf(m, p), Flat(m.ram.mem, m.slots[p].root))
  }

  /** What an event of the real machine is to process p: nothing at all unless p
      is the current process, and nothing for a page fault, a timer interrupt or
      a poll without input. */
  ghost function Project(m: Machine, e: Event, p: nat): VmEvent
    requires Tidy(m) && p < PROCS_MAX
  {
    if p != m.cur then Quiet
    else match e
      case Instruction(op) => ProjectOp(m, op)
      case KernelContinues(now, ch, junk) =>
        (match m.slots[p].call
         case Entry => Start(junk)
         case Getchar(_, _) => if 0 <= ch < WORD_LIMIT then Input(ch) else Quiet
         case Sleep(_, _) => SleepOver
         case _ => Quiet)
      case _ => Quiet
  }

  ghost function ProjectOp(m: Machine, op: Op): VmEvent {
    if Reach(m, m.pc, Fetch) == Fault then Quiet
    else match op
      case Alu(regs, pc) => Compute(regs, pc)
      case LoadByte(va, rd, pc) => if InUserRange(va) && Reach(m, va, Load) != Fault then Read(va - USER_BASE, rd, pc) else Quiet
      case StoreByte(va, b, pc) => if InUserRange(va) && Reach(m, va, Store) != Fault then Write(va - USER_BASE, b, pc) else Quiet
      case Ecall(now) => SystemCall
      case OtherTrap => Quiet
  }

  // ---- processors ----

  /** yield moves no processor state of any process. */
  lemma YieldCpu(m: Machine, call: Call, p: nat)
    requires Tidy(m) && p < PROCS_MAX
    ensures CpuOf(Yield(m, call), p) == SlotCpu(if p == m.cur then m.slots[p].(call := call) else m.slots[p])
    ensures Yield(m, call).slots[p].pid == m.slots[p].pid && Yield(m, call).slots[p].root == m.slots[p].root
  {
    hide Pick, SlotCpu;
  }

  /** A timer interrupt is invisible, to whom it interrupts and to everyone else. */
  lemma TimerCpu(m: Machine, now: nat, p: nat)
    requires Inv(m) && m.at != KernelCode && 1 <= p <= m.users
    ensures Tidy(m) && CpuOf(TimerTrap(m, now, true), p) == CpuOf(m, p)
    ensures TimerTrap(m, now, true).slots[p].pid == m.slots[p].pid && TimerTrap(m, now, true).slots[p].root == m.slots[p].root
  {
    hide HeapOk, Counted, AllInUse, Walk, IdlePoint, Yield;
    var e := TrapEntry(m);
    var e1 := e.(slots := Wake(e.slots, now));
    YieldCpu(e1, Tick(e.sepc, e.sstatus), p);
    assert Suspended(m, p);
    if p == m.cur {
      RestoreUndoesSave(m.regs, m.slots[p].frame[31]);
    }
  }

  lemma EntryCpu(m: Machine, p: nat)
    requires Inv(m) && m.at == UserCode && 1 <= p <= m.users
    ensures Tidy(m) && p == m.cur ==> RegsOf(TrapEntry(m).slots[p].frame) == m.regs
    ensures p != m.cur ==> TrapEntry(m).slots[p] == m.slots[p]
    ensures TrapEntry(m).slots[m.cur].frame[FRAME_A3] == m.regs[A3] && TrapEntry(m).slots[m.cur].frame[FRAME_A0] == m.regs[A0]
    ensures TrapEntry(m).sepc == m.pc && TrapEntry(m).sstatus == USER_STATUS
    ensures TrapEntry(m).slots[p].pid == m.slots[p].pid && TrapEntry(m).slots[p].root == m.slots[p].root
  {
    hide HeapOk, Counted, AllInUse, Walk, IdlePoint;
    RestoreUndoesSave(m.regs, m.slots[m.cur].frame[31]);
    FrameA0(TrapEntry(m).slots[m.cur].frame, 0);
  }

  lemma SyscallReturnCpu(m: Machine, pc: Word, v: Word, p: nat)
    requires Tidy(m) && p < PROCS_MAX
    ensures CpuOf(SyscallReturn(m, pc, USER_STATUS, v), p) ==
      if p == m.cur then Returned(RegsOf(m.slots[p].frame), pc, v) else SlotCpu(m.slots[p])
    ensures SyscallReturn(m, pc, USER_STATUS, v).slots[p].pid == m.slots[p].pid
    ensures SyscallReturn(m, pc, USER_STATUS, v).slots[p].root == m.slots[p].root
  {
    hide SlotCpu, RegsOf;
    FrameA0(m.slots[m.cur].frame, v);
  }

  lemma BlockCpu(m: Machine, now: nat, ms: nat, call: Call, p: nat)
    requires Tidy(m) && p < PROCS_MAX && (call.Getchar? || call.Sleep?)
    ensures CpuOf(Block(m, now, ms, call), p) ==
      if p != m.cur then SlotCpu(m.slots[p])
      else if call.Getchar? then AwaitInput(RegsOf(m.slots[p].frame), call.pc) else Asleep(RegsOf(m.slots[p].frame), call.pc)
    ensures Block(m, now, ms, call).slots[p].pid == m.slots[p].pid && Block(m, now, ms, call).slots[p].root == m.slots[p].root
  {
    hide Pick, RegsOf;
  }

  lemma EcallCpu(m: Machine, now: nat, p: nat)
    requires Inv(m) && m.at == UserCode && 1 <= p <= m.users
    requires EcallTrap(m, now).power != Panicked
    ensures Tidy(m) && CpuOf(EcallTrap(m, now), p) ==
      if p == m.cur then CallStep(m.slots[p].pid, m.regs, m.pc) else CpuOf(m, p)
    ensures EcallTrap(m, now).slots[p].pid == m.slots[p].pid && EcallTrap(m, now).slots[p].root == m.slots[p].root
  {
    InvReady(m);
    EntryCpu(m, p);
    CurrentRuns(m);
    EntryCpu(m, m.cur);
    EntryCur(m);
    hide Inv, TrapEntry, Yield, Block, SyscallReturn, RegsOf, FrameOf, SlotCpu;
    var e := TrapEntry(m);
    var s := e.slots[e.cur];
    EntrySlotCpu(m, p);
    if s.frame[FRAME_A3] == SYS_SLEEP {
      SleepCpu(m, now, p);
    } else if s.frame[FRAME_A3] == SYS_EXIT {
      YieldCpu(e.(slots := e.slots[e.cur := s.(state := Exited)]), Dead, p);
      ExitedCpu(s);
    } else if s.frame[FRAME_A3] == SYS_GETCHAR {
      GetcharCpu(s, e.sepc, e.sstatus);
    } else {
      SyscallReturnCpu(e, e.sepc, 0, p);
      SyscallReturnCpu(e, e.sepc, s.pid, p);
    }
  }

  lemma EntrySlotCpu(m: Machine, p: nat)
    requires Tidy(m) && p < PROCS_MAX && m.at == UserCode && (p != m.cur ==> TrapEntry(m).slots[p] == m.slots[p])
    ensures p != m.cur ==> SlotCpu(TrapEntry(m).slots[p]) == CpuOf(m, p)
  {
  }

  lemma ExitedCpu(s: Slot)
    requires |s.frame| == FRAME_WORDS
    ensures SlotCpu(s.(state := Exited).(call := Dead)) == Ended
  {
  }

  lemma GetcharCpu(s: Slot, pc: Word, status: Status)
    requires |s.frame| == FRAME_WORDS && s.state != Exited
    ensures SlotCpu(s.(call := Getchar(pc, status))) == AwaitInput(RegsOf(s.frame), pc)
  {
    hide RegsOf;
  }

  lemma SleepCpu(m: Machine, now: nat, p: nat)
    requires Inv(m) && m.at == UserCode && 1 <= p <= m.users && Tidy(m)
    requires TrapEntry(m).slots[m.cur].frame[FRAME_A3] == SYS_SLEEP
    requires m.regs[A3] == SYS_SLEEP && TrapEntry(m).slots[m.cur].frame[FRAME_A0] == m.regs[A0]
    requires p == m.cur ==> RegsOf(TrapEntry(m).slots[p].frame) == m.regs
    requires p != m.cur ==> SlotCpu(TrapEntry(m).slots[p]) == CpuOf(m, p)
    ensures CpuOf(EcallTrap(m, now), p) == if p == m.cur then CallStep(m.slots[p].pid, m.regs, m.pc) else CpuOf(m, p)
    ensures EcallTrap(m, now).slots[p].pid == m.slots[p].pid && EcallTrap(m, now).slots[p].root == m.slots[p].root
  {
    EntryCpu(m, p);
    EntryCur(m);
    hide Inv, TrapEntry, Block, SyscallReturn, RegsOf, FrameOf, SlotCpu;
    var e := TrapEntry(m);
    SyscallReturnCpu(e, e.sepc, 0, p);
    BlockCpu(e, now, e.slots[e.cur].frame[FRAME_A0] % 0x1_0000_0000, Sleep(e.sepc, e.sstatus), p);
  }

  lemma EntryCur(m: Machine)
    requires Tidy(m)
    ensures var e := TrapEntry(m); e.cur == m.cur && e.at == KernelCode && e.power == m.power
  {
  }

  lemma CurrentRuns(m: Machine)
    requires Inv(m) && m.at == UserCode
    ensures 1 <= m.cur <= m.users && m.slots[m.cur].state == Runnable && m.power == m.power
  {
  }

  lemma ResumeCpu(m: Machine, now: nat, ch: int, junk: Regs, p: nat)
    requires Inv(m) && m.at == KernelCode && |junk| == 32 && ch < WORD_LIMIT && 1 <= p <= m.users
    requires Resume(m, now, ch, junk).power != Panicked
    ensures Tidy(m)
    ensures var s := m.slots[p];
      CpuOf(Resume(m, now, ch, junk), p) ==
        if p != m.cur then CpuOf(m, p)
        else match s.call
          case Entry => Ready(junk[0 := 0][A0 := s.arg], USER_BASE)
          case Getchar(pc, _) => if ch >= 0 then Returned(RegsOf(s.frame), pc, ch) else CpuOf(m, p)
          case Sleep(pc, _) => Returned(RegsOf(s.frame), pc, 0)
          case _ => CpuOf(m, p)
    ensures Resume(m, now, ch, junk).slots[p].pid == m.slots[p].pid && Resume(m, now, ch, junk).slots[p].root == m.slots[p].root
  {
    hide HeapOk, Counted, AllInUse, Walk, IdlePoint, Block, SyscallReturn, RegsOf;
    var c := m.slots[m.cur].call;
    assert Suspended(m, m.cur) && Suspended(m, p);
    match c
    case Getchar(pc, status) =>
      if ch >= 0 { SyscallReturnCpu(m, pc, ch, p); } else { BlockCpu(m, now, TICK_INTERVAL_MS, c, p); }
    case Sleep(pc, status) => SyscallReturnCpu(m, pc, 0, p);
    case _ =>
  }

  // ---- memory ----

  lemma RootsOfSlots(m: Machine, p: nat)
    requires Inv(m) && 1 <= p <= m.users
    ensures Tidy(m) && HeapOk(m.lay, m.ram) && Root(p + 1) in m.ram.book && m.slots[p].root == m.ram.book[Root(p + 1)]
  {
    assert RootOk(m, p);
  }

  /** A page fault is invisible: no register, no byte of anyone changes. */
  lemma FaultView(m: Machine, va: Word, access: Access, p: nat)
    requires Inv(m) && m.at == UserCode && Reach(m, va, access) == Fault && 1 <= p <= m.users
    requires Tidy(m) && MemoryOk(m) && m.cur <= m.users && FaultTrap(m, va).power != Panicked
    ensures View(FaultTrap(m, va), p) == View(m, p)
  {
    BaseHeap(m);
    RootsOfSlots(m, p);
    CurrentRuns(m);
    EntryCpu(m, p);
    EntryCpu(m, m.cur);
    EntryCur(m);
    FaultReady(m, va);
    TrapEntryKeeps(m);
    hide Inv, Reach, TrapEntry, GivePage, HeapOk, SlotCpu, RegsOf, FrameOf, Tidy, MemoryOk, Flat;
    FaultIsVacant(m, va, access);
    var e, t, s := TrapEntry(m), FaultTrap(m, va), m.cur + 1;
    var ram := GivePage(m.lay, m.ram, s, m.slots[m.cur].root, AlignDown(va), []).value;
    FaultKeepsFlat(m.lay, m.ram, s, AlignDown(va), p + 1);
    EntrySlotCpu(m, p);
    ReturnCpu(e.(ram := ram, tlb := e.tlb - {va / PAGE_SIZE}), e.sepc, p);
  }

  lemma TrapEntryKeeps(m: Machine)
    requires Tidy(m)
    ensures TrapEntry(m).ram == m.ram && TrapEntry(m).lay == m.lay && TrapEntry(m).tlb == m.tlb && TrapEntry(m).users == m.users
  {
  }

  lemma ReturnCpu(m: Machine, pc: Word, p: nat)
    requires Tidy(m) && p < PROCS_MAX
    ensures CpuOf(TrapReturn(m, pc, USER_STATUS), p) ==
      if p == m.cur then Ready(RegsOf(m.slots[p].frame), pc) else SlotCpu(m.slots[p])
    ensures TrapReturn(m, pc, USER_STATUS).slots == m.slots && TrapReturn(m, pc, USER_STATUS).ram == m.ram
  {
    hide SlotCpu, RegsOf;
  }
}
