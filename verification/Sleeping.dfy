/** Sleep is never early and never lost, exit is final, and the machine shuts
    down exactly when every user process has exited. */
module Sleeping {
  import opened Words
  import opened Sv39
  import opened PhysMemory
  import opened TrapFrame
  import opened Scheduler
  import opened Machine
  import opened Invariant
  import opened Scheduling

  // ---- sleep ----

  /** When a sleep that is asked for at time `now` is over. */
  function Due(m: Machine, now: nat, ms: nat): nat { now + ms * m.ticksPerMs }

  /** What the ecall leaves behind: SLEEPING until now + ms * ticksPerMs, in all 64
      bits, as long as the clock has not come close to its end. */
  lemma SleepRequest(m: Machine, now: nat)
    requires Inv(m) && m.at == UserCode
    requires m.regs[A3] == SYS_SLEEP && 1 <= m.regs[A0] % 0x1_0000_0000 <= MAX_SLEEP_MS
    requires now + MAX_SLEEP_MS * m.ticksPerMs < WORD_LIMIT
    ensures Tidy(m) && |EcallTrap(m, now).slots| == PROCS_MAX
    ensures var s := EcallTrap(m, now).slots[m.cur];
      s.state == Sleeping && s.wake == Due(m, now, m.regs[A0] % 0x1_0000_0000)
    ensures EcallTrap(m, now).cur != m.cur && EcallTrap(m, now).power == m.power
  {
    InvCurrent(m);
    SavedArguments(m);
    FrameKeepsShape(m);
    var e, ms := TrapEntry(m), m.regs[A0] % 0x1_0000_0000;
    assert e.cur == m.cur && e.users == m.users && e.ticksPerMs == m.ticksPerMs && e.power == m.power;
    hide Inv, Block, TrapEntry;
    ProductBound(ms, m.ticksPerMs);
    BlockSleeps(e, now, ms, Sleep(e.sepc, e.sstatus));
  }

  lemma BlockSleeps(m: Machine, now: nat, ms: nat, call: Call)
    requires Tidy(m) && Shape(m.slots, m.users) && 1 <= m.cur <= m.users && now + ms * m.ticksPerMs < WORD_LIMIT
    ensures var t := Block(m, now, ms, call);
      t.slots[m.cur].state == Sleeping && t.slots[m.cur].wake == now + ms * m.ticksPerMs && t.cur != m.cur && t.power == m.power
  {
    hide Pick;
    assert SlotShape(m.slots, m.users, m.cur);
    var s := m.slots[m.cur].(state := Sleeping, wake := WakeTime(now, ms, m.ticksPerMs));
    var slots := m.slots[m.cur := s][m.cur := s.(call := call)];
    forall i | 0 <= i < PROCS_MAX ensures SlotShape(slots, m.users, i) { assert SlotShape(m.slots, m.users, i); }
    PickIsRunnable(slots, m.users, m.cur);
  }

  lemma ProductBound(ms: nat, t: nat)
    requires ms <= MAX_SLEEP_MS
    ensures ms * t <= MAX_SLEEP_MS * t
  {
  }

  lemma SavedArguments(m: Machine)
    requires Inv(m)
    ensures Tidy(m)
    ensures TrapEntry(m).slots[m.cur].frame[FRAME_A3] == m.regs[A3]
    ensures TrapEntry(m).slots[m.cur].frame[FRAME_A0] == m.regs[A0]
  {
  }

  /** No timer interrupt of the events comes at or after time w. */
  predicate NoTickFrom(events: seq<Event>, w: nat) {
    forall i :: 0 <= i < |events| && events[i].TimerInterrupt? ==> events[i].now < w
  }

  /** Never early: until the first tick at or after its wake time, a process keeps
      sleeping, is never chosen, and nothing in its slot changes. */
  lemma {:induction false} SleepsUntilDue(m: Machine, events: seq<Event>, t: Machine, p: nat)
    requires Inv(m) && Runs(m, events, t) && t.power != Panicked && 1 <= p <= m.users
    requires m.slots[p].state == Sleeping && NoTickFrom(events, m.slots[p].wake)
    ensures Inv(t) && t.users == m.users && p < |t.slots| && t.slots[p] == m.slots[p] && t.cur != p
    decreases |events|
  {
    InvCurrent(m);
    InvReady(m);
    hide Inv, Enabled, Next, Tidy, MemoryOk;
    if |events| > 0 {
      var n := Next(m, events[0]);
      if n.power == Panicked {
        PanicIsFinal(n, events[1..], t);
      } else {
        StepInv(m, events[0]);
        StepUsers(m, events[0]);
        OtherSlots(m, events[0], p);
        SleepsUntilDue(n, events[1..], t, p);
      }
    }
  }

  /** Never lost: the first tick at or after the wake time makes it RUNNABLE. */
  lemma WakesWhenDue(m: Machine, now: nat, p: nat)
    requires Inv(m) && Enabled(m, TimerInterrupt(now, true)) && 1 <= p <= m.users
    requires m.slots[p].state == Sleeping && m.slots[p].wake <= now
    requires Tidy(m) && MemoryOk(m) && m.cur <= m.users
    ensures Next(m, TimerInterrupt(now, true)).power != Panicked
    ensures var t := Next(m, TimerInterrupt(now, true)); p < |t.slots| && t.slots[p].state == Runnable && t.clock == now
  {
    InvCurrent(m);
    TimerPower(m, now);
    OtherSlots(m, TimerInterrupt(now, true), p);
  }

  lemma TimerPower(m: Machine, now: nat)
    requires Tidy(m)
    ensures TimerTrap(m, now, true).power == m.power
  {
  }

  /** A tick at that time in machine t leaves process p RUNNABLE. */
  ghost predicate TickWakes(t: Machine, tick: nat, p: nat) {
    && Tidy(t) && MemoryOk(t) && t.cur <= t.users
    && (Enabled(t, TimerInterrupt(tick, true)) ==> Awake(Next(t, TimerInterrupt(tick, true)), p))
  }

  ghost predicate Awake(m: Machine, p: nat) { p < |m.slots| && m.slots[p].state == Runnable }

  ghost predicate Dozing(m: Machine, p: nat) { p < |m.slots| && m.slots[p].state == Sleeping && m.cur != p }

  /** The current process executes an ecall to sleep for ms milliseconds, at a time
      when the clock has not come close to its end. */
  ghost predicate AsksToSleep(m: Machine, now: nat, ms: nat) {
    && Tidy(m) && MemoryOk(m) && m.cur <= m.users
    && Enabled(m, Instruction(Ecall(now))) && Reach(m, m.pc, Fetch) != Fault
    && m.regs[A3] == SYS_SLEEP && m.regs[A0] % 0x1_0000_0000 == ms && 1 <= ms <= MAX_SLEEP_MS
    && now + MAX_SLEEP_MS * m.ticksPerMs < WORD_LIMIT
  }

  /** The whole life of a sleep: asked for at time `now`, the process sleeps
      through all ticks before now + ms * ticksPerMs, and is RUNNABLE at the next. */
  lemma SleepIsExact(m: Machine, now: nat, ms: nat, events: seq<Event>, t: Machine, tick: nat)
    requires Inv(m) && AsksToSleep(m, now, ms)
    requires Runs(Next(m, Instruction(Ecall(now))), events, t) && t.power == On
    requires NoTickFrom(events, Due(m, now, ms))
    ensures Inv(t) && Dozing(t, m.cur)
    ensures tick >= Due(m, now, ms) ==> TickWakes(t, tick, m.cur)
  {
    InvCurrent(m);
    SleepRequest(m, now);
    EcallInv(m, now);
    StepUsers(m, Instruction(Ecall(now)));
    hide Inv, EcallTrap, TimerTrap, Tidy, MemoryOk, Reach;
    SleepsUntilDue(Next(m, Instruction(Ecall(now))), events, t, m.cur);
    InvReady(t);
    InvCurrent(t);
    if tick >= Due(m, now, ms) && Enabled(t, TimerInterrupt(tick, true)) {
      WakesWhenDue(t, tick, m.cur);
    }
  }

  // ---- exit and shutdown ----

  /** EXITED is permanent, and an exited process is never chosen again. */
  lemma {:induction false} ExitIsFinal(m: Machine, events: seq<Event>, t: Machine, p: nat)
    requires Inv(m) && Runs(m, events, t) && t.power != Panicked && 1 <= p <= m.users
    requires m.slots[p].state == Exited
    ensures Inv(t) && t.users == m.users && p < |t.slots| && t.slots[p] == m.slots[p] && t.cur != p
    decreases |events|
  {
    InvCurrent(m);
    InvReady(m);
    hide Inv, Enabled, Next, Tidy, MemoryOk;
    if |events| > 0 {
      var n := Next(m, events[0]);
      if n.power == Panicked {
        PanicIsFinal(n, events[1..], t);
      } else {
        StepInv(m, events[0]);
        StepUsers(m, events[0]);
        OtherSlots(m, events[0], p);
        ExitIsFinal(n, events[1..], t, p);
      }
    }
  }

  ghost predicate AllExited(m: Machine) {
    m.users < |m.slots| && forall i :: 1 <= i <= m.users ==> m.slots[i].state == Exited
  }

  lemma AllExitedIsAllGone(m: Machine)
    requires Inv(m)
    ensures AllGone(m.slots, PROCS_MAX) <==> AllExited(m)
  {
    InvCurrent(m);
    hide Inv;
    if AllGone(m.slots, PROCS_MAX) {
      forall i | 1 <= i <= m.users ensures m.slots[i].state == Exited {
        assert Gone(m.slots, i) && SlotShape(m.slots, m.users, i);
      }
    }
    if AllExited(m) {
      forall j | 0 <= j < PROCS_MAX ensures Gone(m.slots, j) { assert SlotShape(m.slots, m.users, j); }
    }
  }

  /** Shutdown is sound: although timer interrupts may come between any two reads of
      the liveness scan, the power goes off only when every user process has exited. */
  lemma ShutdownIsSound(m: Machine, e: Event)
    requires Inv(m) && Enabled(m, e) && Tidy(m) && MemoryOk(m) && m.cur <= m.users
    requires Next(m, e).power == Off
    ensures AllExited(m)
  {
    InvCurrent(m);
    OnlyIdleShutsDown(m, e);
    ScanResult(m);
    AllExitedIsAllGone(m);
  }

  lemma OnlyIdleShutsDown(m: Machine, e: Event)
    requires Enabled(m, e) && Tidy(m) && MemoryOk(m) && m.cur <= m.users
    requires Next(m, e).power == Off
    ensures m.at == IdleCode && IdleStep(m).power == Off
  {
    hide Pick, Walk, GivePage, RegsOf, FrameOf, OutcomeOf, UserStep, EcallTrap, FaultTrap, MemoryOk, Tidy;
    if e.Instruction? {
      OutcomeIsStep(m, e.op);
      if e.op.Ecall? { EcallPower(m, e.op.now); }
      if OutcomeOf(m, e.op).PageFault? { FaultPower(m, OutcomeOf(m, e.op).va); }
    } else if e.KernelContinues? {
      ResumePower(m, e.now, e.ch, e.junk);
    } else if e.KernelAccess? {
      FaultPower(m, e.a);
    }
  }

  lemma EcallPower(m: Machine, now: nat)
    requires Tidy(m) && m.power == On
    ensures EcallTrap(m, now).power != Off
  {
    hide Pick, RegsOf, FrameOf;
  }

  lemma FaultPower(m: Machine, va: Word)
    requires Tidy(m) && MemoryOk(m) && m.cur <= m.users && m.power == On
    ensures FaultTrap(m, va).power != Off
  {
    hide GivePage, RegsOf, FrameOf, MemoryOk;
  }

  lemma ResumePower(m: Machine, now: nat, ch: int, junk: Regs)
    requires Tidy(m) && |junk| == 32 && ch < WORD_LIMIT && m.power == On
    ensures Resume(m, now, ch, junk).power != Off
  {
    hide Pick, RegsOf;
  }

  lemma ScanResult(m: Machine)
    requires Inv(m) && m.at == IdleCode && m.power == On && Tidy(m)
    ensures IdleStep(m).power == Off ==> AllGone(m.slots, PROCS_MAX)
  {
  }

  /** How far the scan is from its end when nobody is alive. */
  function ScanLeft(pc: Word, i: nat): nat {
    var rest := if i < PROCS_MAX then PROCS_MAX - i else 0;
    if pc == IDLE_OFF then 0
    else if pc == IDLE_WFI then 3 * PROCS_MAX + 3
    else if pc == IDLE_PID then 3 * rest + 2
    else if pc == IDLE_RUNNABLE then 3 * rest + 1
    else 3 * rest
  }

  /** Shutdown is not missed: once all have exited, every step of idle code comes
      closer to it, and interrupts do not take it back (they return to the same
      point of the scan, see ExitedTick). */
  lemma ScanComesCloser(m: Machine)
    requires Inv(m) && m.at == IdleCode && m.power == On && AllExited(m) && Tidy(m)
    ensures var t := IdleStep(m);
      t.power == Off || ScanLeft(t.pc, t.regs[S1]) < ScanLeft(m.pc, m.regs[S1])
    ensures ScanLeft(m.pc, m.regs[S1]) == 0 ==> IdleStep(m).power == Off
  {
    InvCurrent(m);
    IdleIsScanning(m);
    var i := m.regs[S1];
    if i < PROCS_MAX { assert SlotShape(m.slots, m.users, i); }
    hide Inv;
  }

  lemma IdleIsScanning(m: Machine)
    requires Inv(m) && m.at == IdleCode
    ensures IdlePoint(m.slots, m.pc, m.regs[S1])
  {
  }

  /** A timer interrupt in the idle code when all have exited: the kernel comes back
      to the very instruction it interrupted. */
  lemma ExitedTick(m: Machine, now: nat, ch: int, junk: Regs)
    requires Inv(m) && m.at == IdleCode && AllExited(m) && |junk| == 32 && ch < WORD_LIMIT && Tidy(m)
    ensures var t := Resume(TimerTrap(m, now, true), now, ch, junk);
      t.at == IdleCode && t.pc == m.pc && t.regs == m.regs && t.power == m.power
  {
    InvCurrent(m);
    FrameKeepsShape(m);
    IdleIsIdle(m);
    RestoreUndoesSave(m.regs, m.slots[0].frame[31]);
    var e := TrapEntry(m);
    var w := Wake(e.slots, now);
    var slots := w[0 := w[0].(call := Tick(m.pc, IDLE_STATUS))];
    forall i | 0 <= i < PROCS_MAX ensures SlotShape(slots, m.users, i) {
      assert SlotShape(e.slots, m.users, i) && (1 <= i <= m.users ==> m.slots[i].state == Exited);
    }
    PickIsRunnable(slots, m.users, 0);
    hide Inv, Pick, RegsOf, FrameOf;
    assert e.sstatus == IDLE_STATUS && e.sepc == m.pc && slots[0].frame == FrameOf(m.regs, m.slots[0].frame[31]);
  }

  lemma IdleIsIdle(m: Machine)
    requires Inv(m) && m.at == IdleCode
    ensures m.cur == 0 && m.mode == Super && m.sstatus.sie && ValidRegs(m.regs) && Tidy(m)
  {
  }

  // ---- shutdown over runs ----

  /** How far the scan is from its end, in the idle loop and while the kernel handles
      an interrupt of it. */
  function ScanNow(m: Machine): nat
    requires Tidy(m)
  {
    if m.at == IdleCode then ScanLeft(m.pc, m.regs[S1])
    else match m.slots[0].call
      case Tick(pc, _) => ScanLeft(pc, RegsOf(m.slots[0].frame)[S1])
      case _ => ScanLeft(IDLE_PID, 0)
  }

  function IdleCount(events: seq<Event>): nat {
    if |events| == 0 then 0 else (if events[0].IdleInstruction? then 1 else 0) + IdleCount(events[1..])
  }

  /** When all have exited only idle has turns. */
  lemma OnlyIdleRuns(m: Machine)
    requires Inv(m) && AllExited(m)
    ensures Tidy(m) && MemoryOk(m) && m.cur == 0 && m.at != UserCode
    ensures m.at == KernelCode ==> m.slots[0].call.Boot? || (m.slots[0].call.Tick? && m.slots[0].call.status == IDLE_STATUS)
  {
    InvCurrent(m);
    InvReady(m);
    assert Suspended(m, 0) by { SuspendedNow(m, 0); }
  }

  lemma SuspendedNow(m: Machine, i: nat)
    requires Inv(m) && i <= m.users
    ensures i < |m.slots| && Suspended(m, i)
  {
  }

  lemma TickKeepsScan(m: Machine, now: nat)
    requires Inv(m) && AllExited(m) && m.at == IdleCode && Tidy(m)
    ensures Tidy(TimerTrap(m, now, true)) && TimerTrap(m, now, true).at == KernelCode
    ensures ScanNow(TimerTrap(m, now, true)) == ScanNow(m)
  {
    InvCurrent(m);
    IdleIsIdle(m);
    RestoreUndoesSave(m.regs, m.slots[0].frame[31]);
    hide Inv, Pick, RegsOf, FrameOf, ScanLeft;
    var e := TrapEntry(m);
    assert e.sepc == m.pc && e.slots[0].frame == FrameOf(m.regs, m.slots[0].frame[31]);
  }

  lemma ResumeKeepsScan(m: Machine, now: nat, ch: int, junk: Regs)
    requires Inv(m) && AllExited(m) && m.at == KernelCode && Tidy(m) && |junk| == 32 && ch < WORD_LIMIT
    ensures Tidy(Resume(m, now, ch, junk)) && ScanNow(Resume(m, now, ch, junk)) == ScanNow(m)
  {
    OnlyIdleRuns(m);
    hide Inv, RegsOf, ScanLeft;
  }

  /** One step: idle instructions bring shutdown closer, nothing takes it back. */
  lemma ScanStep(m: Machine, e: Event)
    requires Inv(m) && AllExited(m) && Tidy(m) && MemoryOk(m) && m.cur <= m.users && Enabled(m, e)
    requires Next(m, e).power != Panicked
    ensures Inv(Next(m, e)) && AllExited(Next(m, e)) && Tidy(Next(m, e))
    ensures Next(m, e).power == Off || ScanNow(Next(m, e)) + IdleCount([e]) <= ScanNow(m)
  {
    assert IdleCount([e]) == if e.IdleInstruction? then 1 else 0 by { assert [e][1..] == []; }
    hide Inv, TimerTrap, IdleStep, Resume, MemoryOk, Tidy, AllExited, ScanNow, IdleCount, Reach, FaultTrap;
    OnlyIdleRuns(m);
    StepInv(m, e);
    InvReady(Next(m, e));
    ExitedStay(m, e);
    match e
    case TimerInterrupt(now, armed) =>
      if armed { TickKeepsScan(m, now); ClockKeepsScan(TimerTrap(m, now, true), now); } else { Unarmed(m, now); }
    case IdleInstruction => ScanComesCloser(m); IdleScanNow(m);
    case KernelContinues(now, ch, junk) => ResumeKeepsScan(m, now, ch, junk);
    case KernelAccess(a, access) => KernelNeverFaults(m, a, access);
    case CacheFill(page) => SameScan(m, Next(m, e));
    case CacheEvict(page) => SameScan(m, Next(m, e));
    case Instruction(_) =>
  }

  lemma ClockKeepsScan(m: Machine, now: nat)
    requires Tidy(m)
    ensures Tidy(m.(clock := now)) && ScanNow(m.(clock := now)) == ScanNow(m)
  {
  }

  lemma SameScan(m: Machine, t: Machine)
    requires Tidy(m) && Tidy(t) && t == m.(tlb := t.tlb)
    ensures ScanNow(t) == ScanNow(m)
  {
  }

  lemma IdleScanNow(m: Machine)
    requires Tidy(m) && m.at == IdleCode
    ensures Tidy(IdleStep(m)) && IdleStep(m).at == IdleCode
    ensures ScanNow(m) == ScanLeft(m.pc, m.regs[S1]) && ScanNow(IdleStep(m)) == ScanLeft(IdleStep(m).pc, IdleStep(m).regs[S1])
  {
    hide ScanLeft;
  }

  lemma ExitedStay(m: Machine, e: Event)
    requires Inv(m) && AllExited(m) && Tidy(m) && MemoryOk(m) && m.cur <= m.users && Enabled(m, e)
    requires Next(m, e).power != Panicked && Inv(Next(m, e))
    ensures AllExited(Next(m, e))
  {
    hide Inv, MemoryOk, Tidy, Next;
    OnlyIdleRuns(m);
    StepUsers(m, e);
    InvCurrent(Next(m, e));
    forall i | 1 <= i <= m.users ensures Next(m, e).slots[i].state == Exited { OtherSlots(m, e, i); }
  }

  /** Along a run the idle instructions use up what is left of the scan. */
  lemma {:induction false} ScanRun(m: Machine, events: seq<Event>, t: Machine)
    requires Inv(m) && AllExited(m) && Runs(m, events, t) && t.power != Panicked
    ensures Tidy(m) && Tidy(t)
    ensures t.power == Off || ScanNow(t) + IdleCount(events) <= ScanNow(m)
    decreases |events|
  {
    hide Inv, Enabled, Next, Tidy, MemoryOk, AllExited, ScanNow;
    InvReady(m);
    if |events| > 0 {
      var n := Next(m, events[0]);
      if n.power == Panicked {
        PanicIsFinal(n, events[1..], t);
      } else {
        ScanStep(m, events[0]);
        assert IdleCount([events[0]]) == IdleCount(events) - IdleCount(events[1..]) by { assert [events[0]][1..] == []; }
        if n.power == Off {
          OffIsFinal(n, events[1..], t);
        } else {
          ScanRun(n, events[1..], t);
        }
      }
    }
  }

  lemma OffIsFinal(m: Machine, events: seq<Event>, t: Machine)
    requires m.power == Off && Runs(m, events, t)
    ensures t == m
  {
    hide Next;
  }

  /** Shutdown comes: once all have exited, no run has more than a bounded number of idle
      instructions, however many interrupts come between them, before the power is off. */
  lemma ShutdownComes(m: Machine, events: seq<Event>, t: Machine)
    requires Inv(m) && AllExited(m) && Runs(m, events, t) && t.power != Panicked
    requires IdleCount(events) > 3 * PROCS_MAX + 3
    ensures t.power == Off
  {
    hide Inv, Runs;
    ScanRun(m, events, t);
    ScanIsShort(m);
  }

  lemma ScanIsShort(m: Machine)
    requires Tidy(m)
    ensures ScanNow(m) <= 3 * PROCS_MAX + 3
  {
    hide RegsOf;
  }
}
