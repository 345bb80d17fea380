/** What the scheduler promises over whole runs: nobody starves, sleepers wake on
    time, exited processes never run again, the kernel is never long with
    interrupts off, and the machine shuts down only when everyone has exited. */
module Scheduling {
  import opened Words
  import opened Sv39
  import opened PhysMemory
  import opened Heap
  import opened Budget
  import opened UserPages
  import opened TrapFrame
  import opened Scheduler
  import opened Machine
  import opened Invariant

  // ---- what a step does to processes that are not running ----

  /** Nothing but a timer interrupt touches a process that is not current, and
      that does nothing but wake it. */
  ghost predicate OnlyWakes(m: Machine, t: Machine, e: Event, i: nat) {
    && i < |m.slots| == |t.slots|
    && t.slots[i] == if e.TimerInterrupt? then WakeSlot(m.slots[i], e.now) else m.slots[i]
  }

  lemma OtherSlots(m: Machine, e: Event, i: nat)
    requires Inv(m) && Enabled(m, e) && i < PROCS_MAX && i != m.cur
    requires Tidy(m) && MemoryOk(m) && m.cur <= m.users && Next(m, e).power != Panicked
    ensures OnlyWakes(m, Next(m, e), e, i)
  {
    InvCurrent(m);
    hide Inv, Walk, UserStep, OutcomeOf, FaultTrap, EcallTrap, TimerTrap, Resume, MemoryOk, Tidy, Reach;
    match e
    case Instruction(op) =>
      OutcomeIsStep(m, op);
      if OutcomeOf(m, op).PageFault? { FaultOthers(m, OutcomeOf(m, op).va, i); }
      if op.Ecall? { EcallOthers(m, op.now, i); }
    case TimerInterrupt(now, armed) => TimerOthers(m, now, armed, i);
    case KernelContinues(now, ch, junk) => ResumeOthers(m, now, ch, junk, i);
    case KernelAccess(a, access) => KernelNeverFaults(m, a, access);
    case _ =>
  }

  /** The current process is RUNNABLE, and sscratch is its own. */
  lemma InvCurrent(m: Machine)
    requires Inv(m)
    ensures Tidy(m) && m.sscratch == m.cur <= m.users < PROCS_MAX && m.slots[m.cur].state == Runnable && Shape(m.slots, m.users)
    ensures m.slots[m.cur].pid == if m.cur == 0 then 0 else m.cur + 1
    ensures m.at == UserCode ==> m.cur > 0
    ensures m.at == IdleCode ==> m.cur == 0
    ensures m.cur == 0 ==> NoneRunnable(m.slots, m.users)
  {
    assert SlotShape(m.slots, m.users, m.cur);
  }

  lemma FaultOthers(m: Machine, va: Word, i: nat)
    requires Tidy(m) && MemoryOk(m) && m.cur <= m.users && i < PROCS_MAX && i != m.cur && m.sscratch == m.cur
    ensures FaultTrap(m, va).slots[i] == m.slots[i] && |FaultTrap(m, va).slots| == PROCS_MAX
    ensures FaultTrap(m, va).cur == m.cur && FaultTrap(m, va).turns == m.turns && FaultTrap(m, va).switches == m.switches
    ensures FaultTrap(m, va).clock == m.clock
    ensures FaultTrap(m, va).power != Panicked ==> m.mode == User && FaultTrap(m, va).at == UserCode
  {
    hide GivePage, RegsOf, FrameOf, MemoryOk;
  }

  lemma EcallOthers(m: Machine, now: nat, i: nat)
    requires Tidy(m) && i < PROCS_MAX && i != m.cur && m.sscratch == m.cur
    ensures EcallTrap(m, now).slots[i] == m.slots[i]
  {
    hide Pick, RegsOf, FrameOf;
  }

  lemma TimerOthers(m: Machine, now: nat, armed: bool, i: nat)
    requires Tidy(m) && i < PROCS_MAX && i != m.cur && m.sscratch == m.cur && TimerTrap(m, now, armed).power != Panicked
    ensures TimerTrap(m, now, armed).slots[i] == WakeSlot(m.slots[i], now)
  {
    hide Pick, RegsOf, FrameOf;
  }

  lemma ResumeOthers(m: Machine, now: nat, ch: int, junk: Regs, i: nat)
    requires Tidy(m) && |junk| == 32 && ch < WORD_LIMIT && i < PROCS_MAX && i != m.cur
    ensures Resume(m, now, ch, junk).slots[i] == m.slots[i] && |Resume(m, now, ch, junk).slots| == PROCS_MAX
  {
    hide Pick, RegsOf;
  }

  // ---- fairness ----

  /** How many slots the next scan looks at before it comes to slot t. */
  function Ahead(cur: nat, t: nat): nat
    requires cur < PROCS_MAX && t < PROCS_MAX
  {
    OffsetTo(if cur == 0 then 0 else cur + 1, t)
  }

  /** What a call of yield does for a process that waits. */
  ghost predicate Closer(m: Machine, t: Machine, p: nat)
  {
    && m.cur < PROCS_MAX && t.cur < PROCS_MAX && p < PROCS_MAX
    && if t.turns == m.turns then t.cur == m.cur
       else t.turns == m.turns + 1 && (t.cur == p || Ahead(t.cur, p) < Ahead(m.cur, p))
  }

  lemma YieldCloser(m: Machine, call: Call, p: nat)
    requires Tidy(m) && Shape(m.slots, m.users) && m.cur <= m.users && 1 <= p <= m.users && p != m.cur
    requires m.slots[p].state == Runnable
    ensures Yield(m, call).turns == m.turns + 1 && Closer(m, Yield(m, call), p)
  {
    hide Pick, OffsetTo;
    var slots := m.slots[m.cur := m.slots[m.cur].(call := call)];
    forall i | 0 <= i < PROCS_MAX ensures SlotShape(slots, m.users, i) { assert SlotShape(m.slots, m.users, i); }
    PickIsRunnable(slots, m.users, m.cur);
    PickComesCloser(slots, m.users, m.cur, p);
    assert SlotShape(slots, m.users, m.cur) && SlotShape(slots, m.users, Pick(slots, m.cur));
  }

  lemma FrameKeepsShape(m: Machine)
    requires Tidy(m) && Shape(m.slots, m.users)
    ensures Shape(TrapEntry(m).slots, m.users)
  {
    hide FrameOf;
    forall i | 0 <= i < PROCS_MAX ensures SlotShape(TrapEntry(m).slots, m.users, i) { assert SlotShape(m.slots, m.users, i); }
  }

  lemma TimerCloser(m: Machine, now: nat, p: nat)
    requires Inv(m) && m.at != KernelCode && 1 <= p <= m.users && p != m.cur
    requires m.slots[p].state == Runnable || (m.slots[p].state == Sleeping && now >= m.slots[p].wake)
    ensures Tidy(m) && Closer(m, TimerTrap(m, now, true), p) && TimerTrap(m, now, true).turns == m.turns + 1
  {
    InvCurrent(m);
    FrameKeepsShape(m);
    hide Inv, Yield, FrameOf, Ahead;
    var e := TrapEntry(m);
    var w := Wake(e.slots, now);
    forall i | 0 <= i < PROCS_MAX ensures SlotShape(w, m.users, i) { assert SlotShape(e.slots, m.users, i); }
    YieldCloser(e.(slots := w), Tick(e.sepc, e.sstatus), p);
  }

  lemma BlockCloser(m: Machine, now: nat, ms: nat, call: Call, p: nat)
    requires Tidy(m) && Shape(m.slots, m.users) && 1 <= m.cur <= m.users && 1 <= p <= m.users && p != m.cur
    requires m.slots[p].state == Runnable && m.slots[m.cur].state == Runnable
    ensures Closer(m, Block(m, now, ms, call), p)
  {
    hide Yield, Ahead;
    var s := m.slots[m.cur];
    var slots := m.slots[m.cur := s.(state := Sleeping, wake := WakeTime(now, ms, m.ticksPerMs))];
    forall i | 0 <= i < PROCS_MAX ensures SlotShape(slots, m.users, i) { assert SlotShape(m.slots, m.users, i); }
    YieldCloser(m.(slots := slots), call, p);
  }

  lemma EcallCloser(m: Machine, now: nat, p: nat)
    requires Inv(m) && m.at == UserCode && 1 <= p <= m.users && p != m.cur && m.slots[p].state == Runnable
    ensures Closer(m, EcallTrap(m, now), p)
  {
    InvCurrent(m);
    FrameKeepsShape(m);
    hide Inv, Yield, FrameOf, RegsOf, Ahead, Block;
    var e := TrapEntry(m);
    var s := e.slots[e.cur];
    var num, ms := s.frame[FRAME_A3], s.frame[FRAME_A0] % 0x1_0000_0000;
    if num == SYS_SLEEP {
      BlockCloser(e, now, ms, Sleep(e.sepc, e.sstatus), p);
    } else if num == SYS_EXIT {
      var slots := e.slots[e.cur := s.(state := Exited)];
      forall i | 0 <= i < PROCS_MAX ensures SlotShape(slots, m.users, i) { assert SlotShape(e.slots, m.users, i); }
      YieldCloser(e.(slots := slots), Dead, p);
    }
  }

  lemma ResumeCloser(m: Machine, now: nat, ch: int, junk: Regs, p: nat)
    requires Inv(m) && m.at == KernelCode && |junk| == 32 && ch < WORD_LIMIT
    requires 1 <= p <= m.users && p != m.cur && m.slots[p].state == Runnable
    ensures Tidy(m) && Closer(m, Resume(m, now, ch, junk), p)
  {
    InvCurrent(m);
    hide Inv, RegsOf, Ahead, Block;
    var c := m.slots[m.cur].call;
    if c.Getchar? && m.cur > 0 { BlockCloser(m, now, TICK_INTERVAL_MS, c, p); }
  }

  /** One step of the machine, seen by a RUNNABLE process that waits. */
  lemma StepCloser(m: Machine, e: Event, p: nat)
    requires Inv(m) && Enabled(m, e) && 1 <= p <= m.users && p != m.cur && m.slots[p].state == Runnable
    requires Tidy(m) && MemoryOk(m) && m.cur <= m.users && Next(m, e).power != Panicked
    ensures Closer(m, Next(m, e), p)
  {
    hide Inv, Walk, UserStep, OutcomeOf, FaultTrap, EcallTrap, TimerTrap, Resume, MemoryOk, Tidy, Ahead, Reach;
    InvCurrent(m);
    match e
    case Instruction(op) =>
      OutcomeIsStep(m, op);
      if OutcomeOf(m, op).PageFault? { FaultOthers(m, OutcomeOf(m, op).va, p); }
      if op.Ecall? { EcallCloser(m, op.now, p); }
    case TimerInterrupt(now, armed) =>
      if armed { TimerCloser(m, now, p); } else { Unarmed(m, now); }
    case KernelContinues(now, ch, junk) => ResumeCloser(m, now, ch, junk, p);
    case KernelAccess(a, access) => KernelNeverFaults(m, a, access);
    case _ =>
  }

  /** In no state of the run, the last one included, is p the current process. */
  ghost predicate NeverCurrent(m: Machine, events: seq<Event>, p: nat)
    decreases |events|
  {
    m.cur != p && (|events| > 0 && Tidy(m) && MemoryOk(m) && m.cur <= m.users && Enabled(m, events[0]) ==>
      NeverCurrent(Next(m, events[0]), events[1..], p))
  }

  /** A process that is RUNNABLE but not chosen stays RUNNABLE, and every call of
      yield brings it closer: it is passed over at most Ahead(cur, p) times. */
  lemma {:induction false} WaitingRun(m: Machine, events: seq<Event>, t: Machine, p: nat)
    requires Inv(m) && Runs(m, events, t) && t.power != Panicked && 1 <= p <= m.users
    requires m.slots[p].state == Runnable && NeverCurrent(m, events, p)
    ensures Inv(t) && t.users == m.users && p < |t.slots| && t.slots[p] == m.slots[p]
    ensures t.turns + Ahead(t.cur, p) <= m.turns + Ahead(m.cur, p)
    decreases |events|
  {
    InvReady(m);
    InvCurrent(m);
    hide Inv, Enabled, Next, Tidy, MemoryOk, Ahead;
    if |events| > 0 {
      var n := Next(m, events[0]);
      if n.power == Panicked {
        PanicIsFinal(n, events[1..], t);
      } else {
        StepInv(m, events[0]);
        StepUsers(m, events[0]);
        OtherSlots(m, events[0], p);
        StepCloser(m, events[0], p);
        WaitingRun(n, events[1..], t, p);
      }
    }
  }

  /** No starvation: once RUNNABLE, a process is chosen within PROCS_MAX - 1 calls
      of yield, whatever the others do meanwhile. */
  lemma NoStarvation(m: Machine, events: seq<Event>, t: Machine, p: nat)
    requires Inv(m) && Runs(m, events, t) && t.power != Panicked && 1 <= p <= m.users
    requires m.slots[p].state == Runnable && NeverCurrent(m, events, p)
    ensures p < |t.slots| && t.slots[p].state == Runnable && t.turns < m.turns + PROCS_MAX - 1
  {
    WaitingRun(m, events, t, p);
    InvCurrent(m);
    WaitIsShort(m.cur, p, m.users);
  }

  lemma WaitIsShort(cur: nat, p: nat, users: nat)
    requires cur <= users < PROCS_MAX && 1 <= p <= users && cur != p
    ensures Ahead(cur, p) < PROCS_MAX && (cur > 0 ==> Ahead(cur, p) < PROCS_MAX - 1)
  {
  }

  /** The same, counted from the timer interrupt that wakes it: that interrupt's
      own call of yield is the first. */
  lemma NoStarvationOnceWoken(m: Machine, now: nat, events: seq<Event>, t: Machine, p: nat)
    requires Inv(m) && m.at != KernelCode && 1 <= p <= m.users && m.slots[p].state == Sleeping && now >= m.slots[p].wake
    requires Tidy(m) && MemoryOk(m) && m.cur <= m.users && Enabled(m, TimerInterrupt(now, true))
    requires Runs(Next(m, TimerInterrupt(now, true)), events, t) && t.power != Panicked
    requires NeverCurrent(Next(m, TimerInterrupt(now, true)), events, p)
    ensures p < |t.slots| && t.slots[p].state == Runnable && t.turns < m.turns + PROCS_MAX - 1
  {
    var e := TimerInterrupt(now, true);
    var n := Next(m, e);
    TimerInv(m, now);
    InvCurrent(m);
    InvCurrent(n);
    StepUsers(m, e);
    OtherSlots(m, e, p);
    TimerCloser(m, now, p);
    hide Inv, TimerTrap, MemoryOk, Tidy, Ahead;
    WaitingRun(n, events, t, p);
    WaitIsShort(m.cur, p, m.users);
    IdleWaitIsShort(n.cur, p);
  }

  lemma IdleWaitIsShort(k: nat, p: nat)
    requires k < PROCS_MAX && 1 <= p < PROCS_MAX && k != p
    ensures Ahead(k, p) < Ahead(0, p) ==> Ahead(k, p) + 1 < PROCS_MAX - 1
  {
  }
}
