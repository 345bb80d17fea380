/** The kernel never runs long with interrupts off. Each poll of the console that
    finds no input puts one RUNNABLE process to sleep, and only a timer interrupt
    wakes it, so polling processes cannot keep choosing each other. */
module KernelTime {
  import opened Words
  import opened Sv39
  import opened PhysMemory
  import opened TrapFrame
  import opened Scheduler
  import opened Machine
  import opened Invariant
  import opened Scheduling

  /** The RUNNABLE user processes. */
  ghost function Ready(m: Machine): set<nat>
    requires m.users < |m.slots|
  {
    set i: nat | 1 <= i <= m.users && m.slots[i].state == Runnable
  }

  lemma {:induction false} ReadyIsSmall(m: Machine, n: nat)
    requires m.users < |m.slots| && n <= m.users
    ensures |set i: nat | 1 <= i <= n && m.slots[i].state == Runnable| <= n
  {
    var all := set i: nat | 1 <= i <= n && m.slots[i].state == Runnable;
    if n == 0 {
      assert all == {};
    } else {
      ReadyIsSmall(m, n - 1);
      assert all - {n} == set i: nat | 1 <= i <= n - 1 && m.slots[i].state == Runnable;
    }
  }

  /** An empty poll: one RUNNABLE process less, at most one switch more. */
  lemma BlockShrinks(m: Machine, now: nat, ms: nat, call: Call)
    requires Tidy(m) && 1 <= m.cur <= m.users < PROCS_MAX && m.slots[m.cur].state == Runnable
    ensures var t := Block(m, now, ms, call); t.users == m.users && Ready(t) == Ready(m) - {m.cur}
    ensures m.cur in Ready(m)
    ensures m.switches <= Block(m, now, ms, call).switches <= m.switches + 1
  {
    hide Pick;
  }

  /** A step inside the kernel that does not leave it. */
  lemma KernelStep(m: Machine, e: Event)
    requires Inv(m) && m.at == KernelCode && Enabled(m, e)
    requires Tidy(m) && MemoryOk(m) && m.cur <= m.users
    requires Next(m, e).power != Panicked && Next(m, e).at == KernelCode
    ensures m.users == Next(m, e).users < PROCS_MAX == |m.slots| == |Next(m, e).slots|
    ensures |Ready(Next(m, e))| + Polls([e]) == |Ready(m)|
    ensures Next(m, e).switches <= m.switches + Polls([e])
  {
    InvCurrent(m);
    assert Polls([e]) == if e.KernelContinues? then 1 else 0 by { assert [e][1..] == []; }
    if e.KernelContinues? {
      KernelPolls(m);
      hide Inv, Block, SyscallReturn, TrapReturn, RegsOf, Ready, MemoryOk;
      BlockShrinks(m, e.now, TICK_INTERVAL_MS, m.slots[m.cur].call);
    } else {
      hide Inv, MemoryOk, Reach, FaultTrap;
      if e.KernelAccess? { KernelNeverFaults(m, e.a, e.access); }
      assert Next(m, e).slots == m.slots;
    }
  }

  /** Only a poll of the console can stay in the kernel; idle code never polls. */
  lemma KernelPolls(m: Machine)
    requires Inv(m) && m.at == KernelCode
    ensures Tidy(m) && (m.slots[m.cur].call.Getchar? ==> m.cur > 0)
    ensures m.slots[m.cur].call.Tick? || m.slots[m.cur].call.Sleep? ==> m.slots[m.cur].call.status.spp == User || m.cur == 0
  {
    assert Suspended(m, m.cur);
  }

  /** How often kernel code continued after a call of yield. */
  function Polls(events: seq<Event>): nat {
    if |events| == 0 then 0 else (if events[0].KernelContinues? then 1 else 0) + Polls(events[1..])
  }

  /** No state of the run, the last one included, is outside kernel code. */
  ghost predicate StaysInKernel(m: Machine, events: seq<Event>)
    decreases |events|
  {
    m.at == KernelCode && (|events| > 0 && Tidy(m) && MemoryOk(m) && m.cur <= m.users && Enabled(m, events[0]) ==>
      StaysInKernel(Next(m, events[0]), events[1..]))
  }

  /** Along a run inside the kernel every continuation uses up one RUNNABLE process. */
  lemma {:induction false} KernelRun(m: Machine, events: seq<Event>, t: Machine)
    requires Inv(m) && Runs(m, events, t) && t.power != Panicked && StaysInKernel(m, events)
    ensures m.users == t.users < PROCS_MAX == |m.slots| == |t.slots|
    ensures |Ready(t)| + Polls(events) == |Ready(m)|
    ensures t.switches <= m.switches + Polls(events)
    decreases |events|
  {
    InvCurrent(m);
    InvReady(m);
    hide Inv, Enabled, Next, Tidy, MemoryOk, Ready;
    if |events| > 0 {
      var n := Next(m, events[0]);
      if n.power == Panicked {
        PanicIsFinal(n, events[1..], t);
      } else {
        StepInv(m, events[0]);
        InKernelNow(n, events[1..]);
        KernelStep(m, events[0]);
        KernelRun(n, events[1..], t);
        assert Polls([events[0]]) == Polls(events) - Polls(events[1..]) by { assert [events[0]][1..] == []; }
      }
    }
  }

  lemma InKernelNow(m: Machine, events: seq<Event>)
    requires StaysInKernel(m, events)
    ensures m.at == KernelCode
  {
  }

  /** A trap itself switches at most once. */
  lemma TrapSwitches(m: Machine, e: Event)
    requires Inv(m) && m.at != KernelCode && Enabled(m, e)
    requires Tidy(m) && MemoryOk(m) && m.cur <= m.users && Next(m, e).power != Panicked
    ensures Next(m, e).switches <= m.switches + 1
  {
    hide Inv, Walk, UserStep, OutcomeOf, FaultTrap, EcallTrap, TimerTrap, MemoryOk, Tidy, Reach;
    InvCurrent(m);
    match e
    case Instruction(op) =>
      OutcomeIsStep(m, op);
      if OutcomeOf(m, op).PageFault? { FaultOthers(m, OutcomeOf(m, op).va, if m.cur == 0 then 1 else 0); }
      if op.Ecall? { EcallSwitches(m, op.now); }
    case TimerInterrupt(now, armed) => TimerSwitches(m, now, armed);
    case KernelAccess(a, access) => KernelNeverFaults(m, a, access);
    case _ =>
  }

  lemma EcallSwitches(m: Machine, now: nat)
    requires Tidy(m)
    ensures EcallTrap(m, now).switches <= m.switches + 1
  {
    hide Pick, RegsOf, FrameOf;
  }

  lemma TimerSwitches(m: Machine, now: nat, armed: bool)
    requires Tidy(m)
    ensures TimerTrap(m, now, armed).switches <= m.switches + 1
  {
    hide Pick, RegsOf, FrameOf;
  }

  /** From any trap, before user code or idle code runs again: the context switches
      are at most one more than the user processes that the trap leaves RUNNABLE,
      hence at most PROCS_MAX, and the kernel continues at most that often. */
  lemma KernelIsShort(m: Machine, e: Event, events: seq<Event>, t: Machine)
    requires Inv(m) && m.at != KernelCode && Enabled(m, e)
    requires Tidy(m) && MemoryOk(m) && m.cur <= m.users && Next(m, e).power != Panicked
    requires Runs(Next(m, e), events, t) && t.power != Panicked && StaysInKernel(Next(m, e), events)
    ensures Next(m, e).users < |Next(m, e).slots|
    ensures t.switches - m.switches <= |Ready(Next(m, e))| + 1 <= PROCS_MAX
    ensures Polls(events) <= |Ready(Next(m, e))| < PROCS_MAX
  {
    var n := Next(m, e);
    StepInv(m, e);
    InvCurrent(n);
    TrapSwitches(m, e);
    KernelRun(n, events, t);
    ReadyIsSmall(n, n.users);
  }
}
