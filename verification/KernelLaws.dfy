/** What the kernel does, event by event, in numbers and without the names of its
    functions: the law of each system call, of a tick, of a page fault, and of what
    comes after each kind of waiting. Nothing that a law does not mention changes. */
module KernelLaws {
  import opened Words
  import opened Sv39
  import opened Pte
  import opened PhysMemory
  import opened Heap
  import opened UserPages
  import opened TrapFrame
  import opened Scheduler
  import opened Machine
  import opened Invariant
  import opened PrivateMachines
  import opened Scheduling
  import opened Sleeping
  import opened Faults

  /** The current process executes an ecall at time `now`. */
  ghost predicate AtEcall(m: Machine, now: nat) {
    && Inv(m) && Tidy(m) && MemoryOk(m) && m.cur <= m.users
    && Enabled(m, Instruction(Ecall(now))) && Reach(m, m.pc, Fetch) != Fault
  }

  /** The current process goes on after a call of yield. */
  ghost predicate AtResume(m: Machine, e: Event) {
    && Inv(m) && Tidy(m) && MemoryOk(m) && m.cur <= m.users && e.KernelContinues? && Enabled(m, e)
  }

  lemma EcallState(m: Machine, now: nat)
    requires AtEcall(m, now)
    ensures m.at == UserCode && m.power == On && 1 <= m.cur <= m.users < PROCS_MAX
  {
    InvCurrent(m);
  }

  lemma ResumeState(m: Machine, e: Event)
    requires AtResume(m, e)
    ensures m.at == KernelCode && m.power == On && m.cur <= m.users < PROCS_MAX
  {
    InvCurrent(m);
  }

  /** The state right after kernel_entry has saved the registers. */
  lemma Entered(m: Machine)
    requires Inv(m) && m.at == UserCode
    ensures Tidy(m) && 1 <= m.cur <= m.users < PROCS_MAX && m.mode == User
    ensures m.slots[m.cur].pid == m.cur + 1 && m.slots[m.cur].state == Runnable
    ensures var e := TrapEntry(m);
      && e == m.(sepc := m.pc, sstatus := Status(false, true, User), mode := Super, at := KernelCode,
                 slots := m.slots[m.cur := m.slots[m.cur].(frame := e.slots[m.cur].frame)])
      && |e.slots[m.cur].frame| == FRAME_WORDS && RegsOf(e.slots[m.cur].frame) == m.regs
      && e.slots[m.cur].frame[FRAME_A3] == m.regs[13] && e.slots[m.cur].frame[FRAME_A0] == m.regs[10]
  {
    InvCurrent(m);
    InvMode(m);
    CurrentRuns(m);
    EntryCpu(m, m.cur);
    hide Inv, RegsOf, FrameOf;
  }

  lemma EcallIsNext(m: Machine, now: nat)
    requires AtEcall(m, now)
    ensures Next(m, Instruction(Ecall(now))) == EcallTrap(m, now).(clock := now)
  {
    hide Inv, Reach, EcallTrap, MemoryOk, Tidy;
  }

  lemma ReturnInNumbers(m: Machine, pc: Word, v: Word)
    requires Tidy(m)
    ensures var frame := m.slots[m.cur].frame[FRAME_A0 := v];
      && SyscallReturn(m, pc, Status(false, true, User), v)
         == m.(slots := m.slots[m.cur := m.slots[m.cur].(frame := frame)], regs := RegsOf(frame),
               pc := (pc + 4) % 0x1_0000_0000_0000_0000, sepc := (pc + 4) % 0x1_0000_0000_0000_0000,
               mode := User, sstatus := Status(true, true, User), at := UserCode)
      && RegsOf(frame) == RegsOf(m.slots[m.cur].frame)[10 := v]
  {
    FrameA0(m.slots[m.cur].frame, v);
    hide RegsOf;
  }

  /** Whose turn it is after slot cur: of the RUNNABLE user processes the first one after
      it around the table of eight, from idle the first of all, and idle if there is none. */
  ghost predicate NextInTurn(slots: Slots, users: nat, cur: nat, k: nat)
    requires users < |slots|
  {
    && k <= users
    && (k == 0 <==> forall q :: 1 <= q <= users ==> slots[q].state != Runnable)
    && (k > 0 ==> slots[k].state == Runnable)
    && forall q :: 1 <= q <= users && slots[q].state == Runnable ==>
         if cur == 0 then k <= q else (k + 7 - cur) % 8 <= (q + 7 - cur) % 8
  }

  /** A call of yield: whose turn it is, with its own root and trap stack and with no
      cached translation of another. */
  lemma YieldInNumbers(m: Machine, call: Call)
    requires Tidy(m) && Shape(m.slots, m.users) && m.cur <= m.users
    ensures var t := Yield(m, call);
      && t == m.(slots := m.slots[m.cur := m.slots[m.cur].(call := call)], at := KernelCode, turns := m.turns + 1,
                 cur := t.cur, switches := t.switches, satp := t.satp, sscratch := t.sscratch, tlb := t.tlb)
      && NextInTurn(t.slots, m.users, m.cur, t.cur)
      && if t.cur == m.cur then t.switches == m.switches && t.satp == m.satp && t.sscratch == m.sscratch && t.tlb == m.tlb
         else t.switches == m.switches + 1 && t.satp == m.slots[t.cur].root && t.sscratch == t.cur && t.tlb == map[]
  {
    hide Pick, NextInTurn;
    var slots := m.slots[m.cur := m.slots[m.cur].(call := call)];
    CallKeepsShape(m, call);
    PickInTurn(slots, m.users, m.cur);
  }

  lemma CallKeepsShape(m: Machine, call: Call)
    requires Tidy(m) && Shape(m.slots, m.users)
    ensures Shape(m.slots[m.cur := m.slots[m.cur].(call := call)], m.users)
  {
    var slots := m.slots[m.cur := m.slots[m.cur].(call := call)];
    forall i | 0 <= i < PROCS_MAX ensures SlotShape(slots, m.users, i) { assert SlotShape(m.slots, m.users, i); }
  }

  lemma PickInTurn(slots: Slots, users: nat, cur: nat)
    requires Shape(slots, users) && cur <= users
    ensures NextInTurn(slots, users, cur, Pick(slots, cur))
  {
    hide Pick, SlotShape;
    PickIsRunnable(slots, users, cur);
    forall q | 1 <= q <= users && slots[q].state == Runnable
      ensures var k := Pick(slots, cur); if cur == 0 then k <= q else (k + 7 - cur) % 8 <= (q + 7 - cur) % 8
    {
      PickIsNext(slots, users, cur, q);
    }
  }

  // ---- calls that return at once ----

  /** putchar (1), getpid (4), and sleep (3) for a time that is zero or negative: back to
      the caller, after the ecall, with the answer in a0. */
  lemma CallReturns(m: Machine, now: nat)
    requires AtEcall(m, now) && |m.regs| == 32
    requires m.regs[13] == 1 || m.regs[13] == 4
      || (m.regs[13] == 3 && (m.regs[10] % 0x1_0000_0000 == 0 || m.regs[10] % 0x1_0000_0000 > 0x7fff_ffff))
    ensures var t := Next(m, Instruction(Ecall(now)));
      && t == m.(regs := m.regs[10 := if m.regs[13] == 4 then m.cur + 1 else 0],
                 pc := (m.pc + 4) % 0x1_0000_0000_0000_0000, clock := now,
                 slots := t.slots, sepc := t.sepc, sstatus := t.sstatus)
      && t.at == UserCode && t.mode == User && t.sstatus.sie
      && m.cur < |m.slots| == |t.slots|
      && t.slots == m.slots[m.cur := m.slots[m.cur].(frame := t.slots[m.cur].frame)]
  {
    hide Inv, MemoryOk, TrapEntry, SyscallReturn, RegsOf, FrameOf, Reach;
    EcallIsNext(m, now);
    Entered(m);
    var e := TrapEntry(m);
    ReturnInNumbers(e, e.sepc, if m.regs[13] == 4 then m.cur + 1 else 0);
  }

  /** Any number but 1 to 5 is a PANIC, and no other call is. */
  lemma UnknownCallPanics(m: Machine, now: nat)
    requires AtEcall(m, now) && |m.regs| == 32
    ensures Next(m, Instruction(Ecall(now))).power == Panicked <==> m.regs[13] < 1 || m.regs[13] > 5
  {
    hide Inv, MemoryOk, EcallTrap, Reach;
    EcallIsNext(m, now);
    EcallPanics(m, now);
  }

  // ---- calls that wait ----

  /** getchar (2) does not give up the processor before it has looked for a key. */
  lemma GetcharPolls(m: Machine, now: nat)
    requires AtEcall(m, now) && |m.regs| == 32 && m.regs[13] == 2
    ensures var t := Next(m, Instruction(Ecall(now)));
      && t == m.(at := KernelCode, mode := Super, clock := now, slots := t.slots, sepc := t.sepc, sstatus := t.sstatus)
      && m.cur < |m.slots| == |t.slots|
      && t.slots == m.slots[m.cur := m.slots[m.cur].(frame := t.slots[m.cur].frame,
                                                     call := Getchar(m.pc, Status(false, true, User)))]
      && |t.slots[m.cur].frame| == FRAME_WORDS && RegsOf(t.slots[m.cur].frame) == m.regs
  {
    hide Inv, MemoryOk, TrapEntry, SyscallReturn, RegsOf, FrameOf, Reach;
    EcallIsNext(m, now);
    Entered(m);
  }

  /** A key that is there is the answer. */
  lemma PollDelivers(m: Machine, e: Event)
    requires AtResume(m, e) && m.slots[m.cur].call.Getchar? && e.ch >= 0
    ensures var t, s := Next(m, e), m.slots[m.cur];
      && t == m.(at := UserCode, mode := User, regs := RegsOf(s.frame)[10 := e.ch],
                 pc := (s.call.pc + 4) % 0x1_0000_0000_0000_0000,
                 slots := t.slots, sepc := t.sepc, sstatus := t.sstatus)
      && t.sstatus.sie && |m.slots| == |t.slots|
      && t.slots == m.slots[m.cur := s.(frame := t.slots[m.cur].frame)]
  {
    hide Inv, MemoryOk, SyscallReturn, TrapReturn, RegsOf;
    WaitsForUser(m);
    var s := m.slots[m.cur];
    ReturnInNumbers(m, s.call.pc, e.ch);
  }

  lemma WaitsForUser(m: Machine)
    requires Inv(m) && m.at == KernelCode
    ensures Tidy(m) && (m.slots[m.cur].call.Getchar? || m.slots[m.cur].call.Sleep? ==>
      m.cur > 0 && m.slots[m.cur].call.status == Status(false, true, User))
  {
    assert Suspended(m, m.cur);
  }

  /** The current process has given up its turn: its slot is `s` now, and another process
      or idle is current, in kernel code. */
  ghost predicate GivesUp(m: Machine, t: Machine, s: Slot) {
    && m.cur < |m.slots| && m.users < |m.slots| && t.cur < |m.slots|
    && t.slots == m.slots[m.cur := s] && t.at == KernelCode && t.mode == Super
    && t.cur != m.cur && NextInTurn(t.slots, m.users, m.cur, t.cur)
    && t.turns == m.turns + 1 && t.switches == m.switches + 1
    && t.satp == m.slots[t.cur].root && t.sscratch == t.cur && t.tlb == map[]
    && t.ram == m.ram && t.power == m.power
  }

  lemma SlotShapeKept(m: Machine, s: Slot)
    requires Tidy(m) && Shape(m.slots, m.users) && 1 <= m.cur <= m.users
    requires s.pid == m.slots[m.cur].pid && s.state != Unused && |s.frame| == FRAME_WORDS
    ensures Shape(m.slots[m.cur := s], m.users) && Tidy(m.(slots := m.slots[m.cur := s]))
  {
    var slots := m.slots[m.cur := s];
    forall i | 0 <= i < PROCS_MAX ensures SlotShape(slots, m.users, i) { assert SlotShape(m.slots, m.users, i); }
  }

  lemma EntryShape(m: Machine)
    requires Inv(m) && m.at == UserCode
    ensures Tidy(m) && Shape(TrapEntry(m).slots, m.users) && Tidy(TrapEntry(m))
  {
    InvCurrent(m);
    FrameKeepsShape(m);
  }

  lemma BlockInNumbers(m: Machine, now: nat, ms: nat, call: Call)
    requires Tidy(m) && Shape(m.slots, m.users) && 1 <= m.cur <= m.users && m.mode == Super
    requires now + ms * m.ticksPerMs < 0x1_0000_0000_0000_0000
    ensures var t := Block(m, now, ms, call);
      && m.cur < |m.slots| == |t.slots| && t.slots[m.cur].wake == now + ms * m.ticksPerMs
      && GivesUp(m, t, m.slots[m.cur].(state := Sleeping, wake := t.slots[m.cur].wake, call := call))
  {
    hide Yield, Shape, WakeTime;
    var s := m.slots[m.cur].(state := Sleeping, wake := WakeTime(now, ms, m.ticksPerMs));
    WakesInTime(now, ms, m.ticksPerMs);
    UsedSlot(m);
    SlotShapeKept(m, s);
    var m1 := m.(slots := m.slots[m.cur := s]);
    YieldInNumbers(m1, call);
    assert m1.slots[m.cur := s.(call := call)] == m.slots[m.cur := s.(call := call)];
  }

  lemma WakesInTime(now: nat, ms: nat, ticksPerMs: nat)
    requires now + ms * ticksPerMs < 0x1_0000_0000_0000_0000
    ensures WakeTime(now, ms, ticksPerMs) == now + ms * ticksPerMs
  {
  }

  lemma UsedSlot(m: Machine)
    requires Shape(m.slots, m.users) && 1 <= m.cur <= m.users
    ensures m.slots[m.cur].state != Unused && m.users < |m.slots|
  {
    assert SlotShape(m.slots, m.users, m.cur);
  }

  /** No key yet: the process sleeps for one tick of 10 ms, and will look again. */
  lemma EmptyPollWaits(m: Machine, e: Event)
    requires AtResume(m, e) && m.slots[m.cur].call.Getchar? && e.ch < 0
    requires e.now + 10 * m.ticksPerMs < 0x1_0000_0000_0000_0000
    ensures GivesUp(m, Next(m, e), m.slots[m.cur].(state := Sleeping, wake := e.now + 10 * m.ticksPerMs))
    ensures Next(m, e).clock == e.now
  {
    hide Inv, MemoryOk, Tidy, Block;
    InvCurrent(m);
    KernelIsSuper(m);
    WaitsForUser(m);
    BlockInNumbers(m, e.now, 10, m.slots[m.cur].call);
  }

  lemma KernelIsSuper(m: Machine)
    requires Inv(m) && m.at == KernelCode
    ensures m.mode == Super
  {
  }

  /** sleep (3) for 1 to 0x7fffffff ms. */
  lemma SleepWaits(m: Machine, now: nat)
    requires AtEcall(m, now) && |m.regs| == 32
    requires m.regs[13] == 3 && 1 <= m.regs[10] % 0x1_0000_0000 <= 0x7fff_ffff
    requires now + (m.regs[10] % 0x1_0000_0000) * m.ticksPerMs < 0x1_0000_0000_0000_0000
    ensures var t := Next(m, Instruction(Ecall(now)));
      && m.cur < |m.slots| == |t.slots| && t.clock == now
      && t.slots[m.cur].wake == now + (m.regs[10] % 0x1_0000_0000) * m.ticksPerMs
      && GivesUp(m, t, m.slots[m.cur].(state := Sleeping, wake := t.slots[m.cur].wake,
                                       frame := t.slots[m.cur].frame, call := Sleep(m.pc, Status(false, true, User))))
      && |t.slots[m.cur].frame| == FRAME_WORDS && RegsOf(t.slots[m.cur].frame) == m.regs
  {
    hide Inv, MemoryOk, Tidy, TrapEntry, Block, RegsOf, FrameOf, Reach;
    EcallIsNext(m, now);
    Entered(m);
    EntryShape(m);
    BlockInNumbers(TrapEntry(m), now, m.regs[10] % 0x1_0000_0000, Sleep(m.pc, Status(false, true, User)));
  }

  /** User sleep() on the machine: seconds become clock ticks, cut at 2000000 seconds. */
  lemma SecondsOnTheClock(m: Machine, now: nat, seconds: int)
    requires AtEcall(m, now) && |m.regs| == 32 && seconds > 0
    requires m.regs[13] == 3 && m.regs[10] == 1000 * (if seconds <= 2000000 then seconds else 2000000)
    requires now + m.regs[10] * m.ticksPerMs < 0x1_0000_0000_0000_0000
    ensures var t := Next(m, Instruction(Ecall(now)));
      && m.cur < |t.slots| && t.slots[m.cur].state == Sleeping
      && t.slots[m.cur].wake == now + 1000 * (if seconds <= 2000000 then seconds else 2000000) * m.ticksPerMs
  {
    hide Inv, MemoryOk, Tidy, Reach, Next;
    assert m.regs[10] % 0x1_0000_0000 == m.regs[10];
    SleepWaits(m, now);
  }

  /** exit (5): EXITED for good, and somebody else's turn. */
  lemma ExitEnds(m: Machine, now: nat)
    requires AtEcall(m, now) && |m.regs| == 32 && m.regs[13] == 5
    ensures var t := Next(m, Instruction(Ecall(now)));
      && m.cur < |m.slots| == |t.slots| && t.clock == now
      && GivesUp(m, t, m.slots[m.cur].(state := Exited, frame := t.slots[m.cur].frame, call := Dead))
  {
    hide Inv, MemoryOk, Tidy, TrapEntry, Yield, RegsOf, FrameOf, Reach, Shape;
    EcallIsNext(m, now);
    Entered(m);
    EntryShape(m);
    var e := TrapEntry(m);
    var s := e.slots[m.cur].(state := Exited);
    SlotShapeKept(e, s);
    YieldInNumbers(e.(slots := e.slots[m.cur := s]), Dead);
  }

  /** A sleep that is over returns 0, after the ecall. */
  lemma SleepReturns(m: Machine, e: Event)
    requires AtResume(m, e) && m.slots[m.cur].call.Sleep?
    ensures var t, s := Next(m, e), m.slots[m.cur];
      && t == m.(at := UserCode, mode := User, regs := RegsOf(s.frame)[10 := 0],
                 pc := (s.call.pc + 4) % 0x1_0000_0000_0000_0000,
                 slots := t.slots, sepc := t.sepc, sstatus := t.sstatus)
      && t.sstatus.sie && |m.slots| == |t.slots|
      && t.slots == m.slots[m.cur := s.(frame := t.slots[m.cur].frame)]
  {
    hide Inv, MemoryOk, SyscallReturn, TrapReturn, RegsOf;
    WaitsForUser(m);
    ReturnInNumbers(m, m.slots[m.cur].call.pc, 0);
  }

  // ---- ticks, page faults, first entry ----

  /** A timer interrupt wakes exactly those whose time has come, and ends the turn. */
  lemma TickEndsTurn(m: Machine, now: nat)
    requires Inv(m) && Tidy(m) && MemoryOk(m) && m.cur <= m.users && Enabled(m, TimerInterrupt(now, true))
    ensures var t := Next(m, TimerInterrupt(now, true));
      && |t.slots| == |m.slots| == 8 && m.users < 8 && m.cur < 8 && t.cur < 8
      && t == m.(at := KernelCode, mode := Super, clock := now, turns := m.turns + 1, slots := t.slots, cur := t.cur,
                 switches := t.switches, satp := t.satp, sscratch := t.sscratch, tlb := t.tlb, sepc := t.sepc, sstatus := t.sstatus)
      && NextInTurn(t.slots, m.users, m.cur, t.cur)
      && t.satp == m.slots[t.cur].root && t.sscratch == t.cur && (t.cur == m.cur || t.tlb == map[])
      && (forall i :: 0 <= i < 8 ==>
            t.slots[i].state == if m.slots[i].state == Sleeping && now >= m.slots[i].wake then Runnable else m.slots[i].state)
      && (forall i :: 0 <= i < 8 && i != m.cur ==> t.slots[i] == m.slots[i].(state := t.slots[i].state))
      && t.slots[m.cur] == m.slots[m.cur].(frame := t.slots[m.cur].frame, call := Tick(m.pc, Status(false, true, m.mode)))
      && |t.slots[m.cur].frame| == FRAME_WORDS && RegsOf(t.slots[m.cur].frame) == m.regs
  {
    hide Inv, InKernel, MemoryOk, Shape, Yield, RegsOf, FrameOf, NextInTurn, WakeSlot;
    InvCurrent(m);
    InvUsersSmall(m);
    InvOwner(m);
    EntryRestores(m);
    FrameKeepsShape(m);
    var e := TrapEntry(m);
    WakeKeepsShape(e.slots, m.users, now);
    WakeInNumbers(now);
    YieldInNumbers(e.(slots := Wake(e.slots, now)), Tick(e.sepc, e.sstatus));
  }

  lemma InvUsersSmall(m: Machine)
    requires Inv(m)
    ensures m.users < 8 && |m.slots| == 8 && m.slots[m.cur].state == Runnable
  {
    InvCurrent(m);
  }

  lemma WakeInNumbers(now: nat)
    ensures forall s :: WakeSlot(s, now) == s.(state := if s.state == Sleeping && now >= s.wake then Runnable else s.state)
  {
  }

  lemma InvOwner(m: Machine)
    requires Inv(m)
    ensures m.cur < |m.slots| && m.satp == m.slots[m.cur].root && m.sscratch == m.cur
    ensures m.at != KernelCode ==> m.sstatus.sie
  {
  }

  lemma WakeKeepsShape(slots: Slots, users: nat, now: nat)
    requires Shape(slots, users)
    ensures Shape(Wake(slots, now), users)
  {
    forall i | 0 <= i < PROCS_MAX ensures SlotShape(Wake(slots, now), users, i) { assert SlotShape(slots, users, i); }
  }

  /** Whoever was interrupted goes on where it was, in the mode it was in. */
  lemma TickReturns(m: Machine, e: Event)
    requires AtResume(m, e) && m.slots[m.cur].call.Tick?
    ensures var t, s := Next(m, e), m.slots[m.cur];
      && t == m.(at := if s.call.status.spp == User then UserCode else IdleCode, mode := s.call.status.spp,
                 regs := RegsOf(s.frame), pc := s.call.pc, sepc := t.sepc, sstatus := t.sstatus)
      && t.sstatus.sie
  {
    TickStatus(m);
    hide Inv, MemoryOk, RegsOf;
  }

  lemma TickStatus(m: Machine)
    requires Inv(m) && m.at == KernelCode
    ensures Tidy(m) && (m.slots[m.cur].call.Tick? ==> m.slots[m.cur].call.status.spie)
  {
    assert Suspended(m, m.cur);
  }

  /** A new process starts in user mode at the start of the user range, with its argument
      in a0. */
  lemma FirstRun(m: Machine, e: Event)
    requires AtResume(m, e) && m.slots[m.cur].call.Entry?
    ensures var t := Next(m, e);
      && t == m.(at := UserCode, mode := User, pc := 0x100_0000, regs := t.regs, sepc := t.sepc, sstatus := t.sstatus)
      && t.sstatus.sie && |t.regs| == 32 && t.regs[0] == 0 && t.regs[10] == m.slots[m.cur].arg
  {
    hide Inv, MemoryOk;
  }

  /** The user instruction faults at va. */
  ghost predicate FaultsAt(m: Machine, op: Op, va: Word) {
    if Reach(m, m.pc, Fetch) == Fault then va == m.pc
    else (op.LoadByte? && va == op.va && Reach(m, va, Load) == Fault) || (op.StoreByte? && va == op.va && Reach(m, va, Store) == Fault)
  }

  /** A page fault outside the 8 MB from 0x1000000 on is a PANIC. Inside, if there is a
      page, the instruction is tried again, and no register has changed. */
  lemma FaultRetries(m: Machine, op: Op, va: Word)
    requires Inv(m) && Tidy(m) && MemoryOk(m) && m.cur <= m.users && Enabled(m, Instruction(op)) && FaultsAt(m, op, va)
    ensures va < 0x100_0000 || va >= 0x180_0000 ==> Next(m, Instruction(op)).power == Panicked
    ensures var t := Next(m, Instruction(op));
      t.power != Panicked ==>
      && t == m.(ram := t.ram, tlb := m.tlb - {va / 4096}, slots := t.slots, sepc := t.sepc, sstatus := t.sstatus)
      && t.sstatus.sie && m.cur < |m.slots| == |t.slots|
      && t.slots == m.slots[m.cur := m.slots[m.cur].(frame := t.slots[m.cur].frame)]
  {
    hide Inv, MemoryOk, TrapEntry, RegsOf, FrameOf, Reach, GivePage, FaultTrap;
    Entered(m);
    FaultIsNext(m, op, va);
    FaultCases(m, va);
    if FaultTrap(m, va).power != Panicked { FaultFrame(m, va); }
  }

  lemma FaultIsNext(m: Machine, op: Op, va: Word)
    requires Tidy(m) && MemoryOk(m) && m.cur <= m.users && Enabled(m, Instruction(op)) && FaultsAt(m, op, va)
    ensures Next(m, Instruction(op)) == FaultTrap(m, va)
  {
    hide MemoryOk, Tidy, FaultTrap, Reach;
  }

  lemma FaultFrame(m: Machine, va: Word)
    requires Inv(m) && m.at == UserCode && Tidy(m) && MemoryOk(m) && m.cur <= m.users && FaultTrap(m, va).power != Panicked
    ensures var t := FaultTrap(m, va);
      && t == m.(ram := t.ram, tlb := m.tlb - {va / 4096}, slots := t.slots, sepc := t.sepc, sstatus := t.sstatus)
      && t.sstatus.sie && m.cur < |m.slots| == |t.slots|
      && t.slots == m.slots[m.cur := m.slots[m.cur].(frame := t.slots[m.cur].frame)]
  {
    Entered(m);
    hide Inv, MemoryOk, TrapEntry, RegsOf, GivePage;
  }

  // ---- what comes after waiting ----

  /** Process p is not current in any state of the run but, perhaps, the last. */
  ghost predicate AwayUntil(m: Machine, events: seq<Event>, p: nat)
    decreases |events|
  {
    |events| > 0 && Tidy(m) && MemoryOk(m) && m.cur <= m.users && Enabled(m, events[0]) ==>
      m.cur != p && AwayUntil(Next(m, events[0]), events[1..], p)
  }

  /** A process that is away keeps everything that it will go on with. */
  lemma {:induction false} AwayKeepsSlot(m: Machine, events: seq<Event>, t: Machine, p: nat)
    requires Inv(m) && Runs(m, events, t) && t.power != Panicked && 1 <= p <= m.users && AwayUntil(m, events, p)
    ensures p < |m.slots| && p < |t.slots| && t.slots[p] == m.slots[p].(state := t.slots[p].state)
    decreases |events|
  {
    hide Inv, Enabled, Next, Tidy, MemoryOk;
    InvReady(m);
    InvCurrent(m);
    if |events| > 0 {
      var n := Next(m, events[0]);
      if n.power == Panicked {
        PanicIsFinal(n, events[1..], t);
      } else {
        StepInv(m, events[0]);
        StepUsers(m, events[0]);
        OtherSlots(m, events[0], p);
        AwayKeepsSlot(n, events[1..], t, p);
      }
    }
  }

  /** The machine is back in user code of the process p with these registers and pc. */
  ghost predicate BackIn(u: Machine, p: nat, regs: Regs, pc: nat) {
    u.at == UserCode && u.mode == User && u.cur == p && u.regs == regs && u.pc == pc && u.sstatus.sie
  }

  /** However long it was away: sleep answers 0 to the code that called it. */
  lemma SleepAnswers(m: Machine, now: nat, events: seq<Event>, t: Machine, e: Event)
    requires AtEcall(m, now) && |m.regs| == 32 && m.regs[13] == 3 && 1 <= m.regs[10] % 0x1_0000_0000 <= 0x7fff_ffff
    requires now + (m.regs[10] % 0x1_0000_0000) * m.ticksPerMs < 0x1_0000_0000_0000_0000
    requires Runs(Next(m, Instruction(Ecall(now))), events, t) && AwayUntil(Next(m, Instruction(Ecall(now))), events, m.cur)
    requires t.cur == m.cur && AtResume(t, e)
    ensures BackIn(Next(t, e), m.cur, m.regs[10 := 0], (m.pc + 4) % 0x1_0000_0000_0000_0000)
  {
    hide Inv, MemoryOk, Tidy, Next, Enabled, Reach, Runs, AwayUntil, RegsOf, NextInTurn;
    var n := Next(m, Instruction(Ecall(now)));
    EcallState(m, now);
    ResumeState(t, e);
    SleepWaits(m, now);
    StillInv(m, Instruction(Ecall(now)), n);
    AwayKeepsSlot(n, events, t, m.cur);
    SleepReturns(t, e);
  }

  lemma StillInv(m: Machine, e: Event, n: Machine)
    requires Inv(m) && Tidy(m) && MemoryOk(m) && m.cur <= m.users && Enabled(m, e) && n == Next(m, e) && n.power == m.power
    ensures Inv(n) && n.users == m.users && m.users < PROCS_MAX && (m.at == UserCode ==> m.cur >= 1)
  {
    hide Inv, MemoryOk, Tidy, Next;
    PowerIsOn(m, e);
    StepInv(m, e);
    StepUsers(m, e);
    InvCurrent(m);
  }

  lemma PowerIsOn(m: Machine, e: Event)
    requires Enabled(m, e)
    ensures m.power == On
  {
  }

  /** However long it was away: the next poll of getchar answers the key, if there is
      one, to the code that called it. */
  lemma PollAnswers(m: Machine, e0: Event, events: seq<Event>, t: Machine, e: Event)
    requires AtResume(m, e0) && m.slots[m.cur].call.Getchar? && e0.ch < 0
    requires e0.now + 10 * m.ticksPerMs < 0x1_0000_0000_0000_0000
    requires Runs(Next(m, e0), events, t) && AwayUntil(Next(m, e0), events, m.cur)
    requires t.cur == m.cur && AtResume(t, e)
    ensures t.cur < |t.slots| && t.slots[t.cur].call == m.slots[m.cur].call && t.slots[t.cur].frame == m.slots[m.cur].frame
    ensures |m.slots[m.cur].frame| == FRAME_WORDS
    ensures e.ch >= 0 ==> BackIn(Next(t, e), m.cur, RegsOf(m.slots[m.cur].frame)[10 := e.ch],
                                 (m.slots[m.cur].call.pc + 4) % 0x1_0000_0000_0000_0000)
  {
    hide Inv, MemoryOk, Tidy, Next, Enabled, Runs, AwayUntil, RegsOf, NextInTurn;
    ResumeState(m, e0);
    ResumeState(t, e);
    EmptyPollWaits(m, e0);
    WaitsForUser(m);
    FrameIsWhole(m);
    StillInv(m, e0, Next(m, e0));
    AwayKeepsSlot(Next(m, e0), events, t, m.cur);
    if e.ch >= 0 { PollDelivers(t, e); }
  }

  lemma FrameIsWhole(m: Machine)
    requires Tidy(m)
    ensures |m.slots[m.cur].frame| == FRAME_WORDS
  {
  }

  /** An empty poll is neither early nor late: asleep until the first tick that is at
      least 10 ms later, then RUNNABLE. */
  lemma PollWaitsOneTick(m: Machine, e: Event, events: seq<Event>, t: Machine, tick: nat)
    requires AtResume(m, e) && m.slots[m.cur].call.Getchar? && e.ch < 0
    requires e.now + 10 * m.ticksPerMs < 0x1_0000_0000_0000_0000
    requires Runs(Next(m, e), events, t) && t.power == On && NoTickFrom(events, e.now + 10 * m.ticksPerMs)
    ensures Inv(t) && Dozing(t, m.cur)
    ensures tick >= e.now + 10 * m.ticksPerMs ==> TickWakes(t, tick, m.cur)
  {
    hide Inv, MemoryOk, Tidy, Next, Runs, NextInTurn;
    ResumeState(m, e);
    EmptyPollWaits(m, e);
    WaitsForUser(m);
    StillInv(m, e, Next(m, e));
    SleepsUntilDue(Next(m, e), events, t, m.cur);
    InvReady(t);
    InvCurrent(t);
    if tick >= e.now + 10 * m.ticksPerMs && Enabled(t, TimerInterrupt(tick, true)) { WakesWhenDue(t, tick, m.cur); }
  }

  /** A preempted process goes on as if nothing had been. */
  lemma TickComesBack(m: Machine, now: nat, events: seq<Event>, t: Machine, e: Event)
    requires Inv(m) && Tidy(m) && MemoryOk(m) && m.cur <= m.users && m.at == UserCode && Enabled(m, TimerInterrupt(now, true))
    requires Runs(Next(m, TimerInterrupt(now, true)), events, t) && AwayUntil(Next(m, TimerInterrupt(now, true)), events, m.cur)
    requires t.cur == m.cur && AtResume(t, e)
    ensures BackIn(Next(t, e), m.cur, m.regs, m.pc)
  {
    hide Inv, MemoryOk, Tidy, Next, Enabled, Runs, AwayUntil, RegsOf, NextInTurn;
    ResumeState(t, e);
    PowerIsOn(m, TimerInterrupt(now, true));
    TickEndsTurn(m, now);
    InvMode(m);
    StillInv(m, TimerInterrupt(now, true), Next(m, TimerInterrupt(now, true)));
    AwayKeepsSlot(Next(m, TimerInterrupt(now, true)), events, t, m.cur);
    TickReturns(t, e);
  }
}
