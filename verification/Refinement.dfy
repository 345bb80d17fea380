/** The main theorem of the kernel: the machine refines private machines. Every
    step of the machine is, to every process, one step of that process's private
    machine or nothing at all, and so is every run. */
module Refinement {
  import opened Words
  import opened Sv39
  import opened Pte
  import opened PhysMemory
  import opened Heap
  import opened FlatView
  import opened TrapFrame
  import opened Scheduler
  import opened Machine
  import opened Invariant
  import opened PrivateMachines

  /** What has to be shown of a step from m to t that is `e` for process p. */
  ghost predicate Matches(m: Machine, t: Machine, p: nat, e: VmEvent) {
    && Tidy(m) && Tidy(t) && p < PROCS_MAX
    && Possible(View(m, p), e) && View(t, p) == VmNext(View(m, p), e)
  }

  lemma ViewOk(m: Machine, p: nat)
    requires Inv(m) && 1 <= p <= m.users
    ensures Tidy(m) && VmOk(View(m, p))
    ensures p == m.cur && m.at == UserCode ==> CpuOf(m, p) == Ready(m.regs, m.pc)
  {
    hide HeapOk, Flat, Control, Walk, Shape;
  }

  /** A step that moves no byte of memory and no root matches if processors do. */
  lemma CpuMatches(m: Machine, t: Machine, p: nat, e: VmEvent)
    requires Inv(m) && 1 <= p <= m.users && Tidy(m) && Tidy(t) && t.ram == m.ram
    requires t.slots[p].pid == m.slots[p].pid && t.slots[p].root == m.slots[p].root
    requires Possible(View(m, p), e) && !e.Write?
    requires CpuOf(t, p) == VmNext(View(m, p), e).cpu
    ensures Matches(m, t, p, e)
  {
    RunUsers(m, p);
    hide Inv, Tidy, Flat, CpuOf, CallStep;
  }

  lemma TimerMatches(m: Machine, now: nat, p: nat)
    requires Inv(m) && m.at != KernelCode && 1 <= p <= m.users
    ensures Matches(m, TimerTrap(m, now, true).(clock := now), p, Quiet)
  {
    InvReady(m);
    ViewOk(m, p);
    TimerCpu(m, now, p);
    TimerKeepsRam(m, now);
    var t := TimerTrap(m, now, true).(clock := now);
    hide Inv, TimerTrap, Flat, SlotCpu;
    CpuMatches(m, t, p, Quiet);
  }

  lemma TimerKeepsRam(m: Machine, now: nat)
    requires Tidy(m)
    ensures TimerTrap(m, now, true).ram == m.ram
  {
    hide Pick;
  }

  lemma EcallKeepsRam(m: Machine, now: nat)
    requires Tidy(m)
    ensures EcallTrap(m, now).ram == m.ram
  {
    hide Pick, RegsOf;
  }

  lemma ResumeKeepsRam(m: Machine, now: nat, ch: int, junk: Regs)
    requires Tidy(m) && |junk| == 32 && ch < WORD_LIMIT
    ensures Resume(m, now, ch, junk).ram == m.ram
  {
    hide Pick, RegsOf;
  }

  lemma EcallMatches(m: Machine, now: nat, p: nat)
    requires Inv(m) && m.at == UserCode && 1 <= p <= m.users && EcallTrap(m, now).power != Panicked
    ensures Matches(m, EcallTrap(m, now).(clock := now), p, if p == m.cur then SystemCall else Quiet)
  {
    InvReady(m);
    ViewOk(m, p);
    EcallCpu(m, now, p);
    EcallKeepsRam(m, now);
    EcallTidy(m, now);
    var t := EcallTrap(m, now).(clock := now);
    hide Inv, EcallTrap, Flat, SlotCpu, CallStep;
    CpuMatches(m, t, p, if p == m.cur then SystemCall else Quiet);
  }

  lemma EcallTidy(m: Machine, now: nat)
    requires Tidy(m)
    ensures Tidy(EcallTrap(m, now).(clock := now))
  {
  }

  lemma ResumeMatches(m: Machine, now: nat, ch: int, junk: Regs, p: nat)
    requires Inv(m) && m.at == KernelCode && |junk| == 32 && ch < WORD_LIMIT && 1 <= p <= m.users
    requires Resume(m, now, ch, junk).power != Panicked
    ensures Tidy(m) && Matches(m, Resume(m, now, ch, junk), p, Project(m, KernelContinues(now, ch, junk), p))
  {
    InvReady(m);
    ViewOk(m, p);
    ResumeCpu(m, now, ch, junk, p);
    ResumeKeepsRam(m, now, ch, junk);
    ResumeTidy(m, now, ch, junk);
    UserRuns(m, p);
    hide Inv, Resume, Flat, HeapOk;
    CpuMatches(m, Resume(m, now, ch, junk), p, Project(m, KernelContinues(now, ch, junk), p));
  }

  lemma ResumeTidy(m: Machine, now: nat, ch: int, junk: Regs)
    requires Tidy(m) && |junk| == 32 && ch < WORD_LIMIT
    ensures Tidy(Resume(m, now, ch, junk))
  {
  }

  lemma UserRuns(m: Machine, p: nat)
    requires Inv(m) && 1 <= p <= m.users && m.at == KernelCode
    ensures p == m.cur ==> m.slots[p].state == Runnable
  {
  }

  lemma StoreMatches(m: Machine, va: Word, b: Byte, pc: Word, pa: nat, p: nat)
    requires Inv(m) && m.at == UserCode && 1 <= p <= m.users && Reach(m, va, Store) == At(pa)
    ensures pa / 8 < |m.ram.mem| && InUserRange(va)
    ensures Matches(m, m.(ram := m.ram.(mem := PhysMemory.StoreByte(m.ram.mem, pa, b)), pc := pc), p,
      if p == m.cur then Write(va - USER_BASE, b, pc) else Quiet)
  {
    hide Inv, Reach, Flat, PhysMemory.StoreByte, SlotCpu;
    StoreMemory(m, va, b, pa, p);
    ViewOk(m, p);
  }

  lemma StoreMemory(m: Machine, va: Word, b: Byte, pa: nat, p: nat)
    requires Inv(m) && m.at == UserCode && 1 <= p <= m.users && Reach(m, va, Store) == At(pa)
    ensures pa / 8 < |m.ram.mem| && InUserRange(va) && p < |m.slots|
    ensures var view := Flat(m.ram.mem, m.slots[p].root);
      Flat(PhysMemory.StoreByte(m.ram.mem, pa, b), m.slots[p].root) == if p == m.cur then view[va - USER_BASE := b] else view
  {
    BaseHeap(m);
    hide Inv, Reach, Translate, HeapOk, Flat, PhysMemory.StoreByte, MemoryOk;
    RootsOfSlots(m, p);
    ReachIsTranslate(m, va, Store);
    StoreUpdatesFlat(m.lay, m.ram, m.cur + 1, va, pa, b, p + 1);
  }

  /** A load reads the private memory. */
  lemma LoadReads(m: Machine, va: Word, pa: nat)
    requires Inv(m) && m.at == UserCode && Reach(m, va, Load) == At(pa)
    ensures Tidy(m) && InUserRange(va)
    ensures Flat(m.ram.mem, m.slots[m.cur].root)[va - USER_BASE] == if pa / 8 < |m.ram.mem| then RamByte(m.ram.mem, pa) else 0
  {
    BaseHeap(m);
    hide Inv, Reach, Translate, HeapOk, RamByte;
    ReachIsTranslate(m, va, Load);
    TranslateUser(m.lay, m.ram, m.cur + 1, va, Load);
    assert USER_BASE + (va - USER_BASE) == va;
  }

  lemma LoadMatches(m: Machine, op: Op, p: nat)
    requires Inv(m) && m.at == UserCode && m.power == On && op.LoadByte? && op.rd < 32 && 1 <= p <= m.users
    requires Reach(m, m.pc, Fetch) != Fault && Reach(m, op.va, Load) != Fault
    requires Tidy(m) && MemoryOk(m) && m.cur <= m.users
    ensures Matches(m, UserStep(m, op), p, if p == m.cur then ProjectOp(m, op) else Quiet)
  {
    ViewOk(m, p);
    hide Inv, Reach, RamByte, Flat, MemoryOk, SlotCpu;
    LoadReads(m, op.va, Reach(m, op.va, Load).pa);
  }

  lemma FaultMatches(m: Machine, va: Word, access: Access, p: nat)
    requires Inv(m) && m.at == UserCode && Reach(m, va, access) == Fault && 1 <= p <= m.users
    requires Tidy(m) && MemoryOk(m) && m.cur <= m.users && FaultTrap(m, va).power != Panicked
    ensures Matches(m, FaultTrap(m, va), p, Quiet)
  {
    FaultView(m, va, access, p);
    ViewOk(m, p);
  }

  lemma UserMatches(m: Machine, op: Op, p: nat)
    requires Inv(m) && Enabled(m, Instruction(op)) && 1 <= p <= m.users
    requires Tidy(m) && MemoryOk(m) && m.cur <= m.users && UserStep(m, op).power != Panicked
    ensures Matches(m, UserStep(m, op), p, Project(m, Instruction(op), p))
  {
    ViewOk(m, p);
    CurrentRuns(m);
    hide Inv, Reach, FaultTrap, EcallTrap, PhysMemory.StoreByte, RamByte, TrapEntry, Matches, MemoryOk, Tidy;
    if Reach(m, m.pc, Fetch) == Fault {
      FaultMatches(m, m.pc, Fetch, p);
    } else {
      match op
      case Alu(regs, pc) => AluMatches(m, regs, pc, p);
      case LoadByte(va, rd, pc) =>
        if Reach(m, va, Load) == Fault { FaultMatches(m, va, Load, p); } else { LoadMatches(m, op, p); }
      case StoreByte(va, b, pc) =>
        if Reach(m, va, Store) == Fault { FaultMatches(m, va, Store, p); }
        else { StoreMatches(m, va, b, pc, Reach(m, va, Store).pa, p); }
      case Ecall(now) => EcallMatches(m, now, p);
      case OtherTrap =>
    }
  }

  lemma AluMatches(m: Machine, regs: Regs, pc: Word, p: nat)
    requires Inv(m) && m.at == UserCode && 1 <= p <= m.users && ValidRegs(regs)
    ensures Matches(m, m.(regs := regs, pc := pc), p, if p == m.cur then Compute(regs, pc) else Quiet)
  {
    ViewOk(m, p);
    hide Inv, Flat;
  }

  /** One step: to the process it concerns it is one step of a private machine, to
      every other process nothing. */
  lemma StepMatches(m: Machine, e: Event, p: nat)
    requires Inv(m) && Enabled(m, e) && 1 <= p <= m.users
    requires Tidy(m) && MemoryOk(m) && m.cur <= m.users && Next(m, e).power != Panicked
    ensures Matches(m, Next(m, e), p, Project(m, e, p))
  {
    ViewOk(m, p);
    hide Inv, UserStep, TimerTrap, IdleStep, Resume, Walk, MemoryOk, Matches, Tidy, View, Reach, FaultTrap;
    match e
    case Instruction(op) => UserMatches(m, op, p);
    case TimerInterrupt(now, armed) =>
      if armed { TimerMatches(m, now, p); } else { Unarmed(m, now); }
    case IdleInstruction => IdleMatches(m, p);
    case KernelContinues(now, ch, junk) => ResumeMatches(m, now, ch, junk, p);
    case KernelAccess(a, access) => KernelNeverFaults(m, a, access); CacheMatches(m, m.tlb, p);
    case CacheFill(page) => CacheMatches(m, Next(m, e).tlb, p);
    case CacheEvict(page) => CacheMatches(m, Next(m, e).tlb, p);
  }

  lemma IdleMatches(m: Machine, p: nat)
    requires Inv(m) && m.at == IdleCode && 1 <= p <= m.users
    requires Tidy(m)
    ensures Matches(m, IdleStep(m), p, Quiet)
  {
    ViewOk(m, p);
    hide Inv, Flat;
  }

  lemma CacheMatches(m: Machine, tlb: map<nat, Leaf>, p: nat)
    requires Inv(m) && 1 <= p <= m.users
    ensures Matches(m, m.(tlb := tlb), p, Quiet)
  {
    ViewOk(m, p);
    hide Inv, Flat;
  }

  // ---- whole runs ----

  /** Private machine v takes the events one after the other and ends as w. */
  ghost predicate VmRuns(v: Vm, events: seq<VmEvent>, w: Vm)
    decreases |events|
  {
    if |events| == 0 then w == v
    else Possible(v, events[0]) && VmRuns(VmNext(v, events[0]), events[1..], w)
  }

  /** What a run is to process p, event by event. */
  ghost function Projection(m: Machine, events: seq<Event>, p: nat): seq<VmEvent>
    requires exists t :: Runs(m, events, t)
    requires p < PROCS_MAX
    decreases |events|
  {
    if |events| == 0 then []
    else
      var t :| Runs(m, events, t);
      RunsNext(m, events, t);
      [Project(m, events[0], p)] + Projection(Next(m, events[0]), events[1..], p)
  }

  lemma RunsNext(m: Machine, events: seq<Event>, t: Machine)
    requires Runs(m, events, t) && |events| > 0
    ensures Tidy(m) && MemoryOk(m) && m.cur <= m.users && Enabled(m, events[0])
    ensures Runs(Next(m, events[0]), events[1..], t)
  {
  }

  /** No process is ever disturbed: over any run, whatever the other processes do
      and whenever interrupts, faults and switches happen, a process is its own
      private machine executing its own instructions and system calls. */
  lemma {:induction false} RunsArePrivate(m: Machine, events: seq<Event>, t: Machine, p: nat)
    requires Inv(m) && Runs(m, events, t) && t.power != Panicked && 1 <= p <= m.users
    ensures Tidy(m) && Tidy(t) && p < PROCS_MAX
    ensures VmRuns(View(m, p), Projection(m, events, p), View(t, p))
    decreases |events|
  {
    InvReady(m);
    RunUsers(m, p);
    if |events| > 0 {
      RunsNext(m, events, t);
      var n := Next(m, events[0]);
      if n.power == Panicked {
        PanicIsFinal(n, events[1..], t);
      } else {
        StepInv(m, events[0]);
        StepUsers(m, events[0]);
        StepMatches(m, events[0], p);
        RunsArePrivate(n, events[1..], t, p);
        hide Inv, Tidy, MemoryOk, Next, Enabled, Project, View, Possible, VmNext, Runs;
        ProjectionStep(m, events, t, p);
        var es := Projection(m, events, p);
        assert es[0] == Project(m, events[0], p) && es[1..] == Projection(n, events[1..], p);
      }
    }
  }

  lemma ProjectionStep(m: Machine, events: seq<Event>, t: Machine, p: nat)
    requires Runs(m, events, t) && |events| > 0 && p < PROCS_MAX
    requires Tidy(m) && MemoryOk(m) && m.cur <= m.users && Enabled(m, events[0])
    requires Runs(Next(m, events[0]), events[1..], t)
    ensures Projection(m, events, p) == [Project(m, events[0], p)] + Projection(Next(m, events[0]), events[1..], p)
  {
    hide Inv, Tidy, MemoryOk, Next, Enabled, Project, Runs;
  }

  lemma RunUsers(m: Machine, p: nat)
    requires Inv(m) && 1 <= p <= m.users
    ensures p < PROCS_MAX
  {
  }
}
