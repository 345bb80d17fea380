/** The invariant of every run of the machine, and that every step keeps it. */
module Invariant {
  import opened Words
  import opened Sv39
  import opened Pte
  import opened PhysMemory
  import opened PageTables
  import opened Heap
  import opened UserPages
  import opened FlatView
  import opened Budget
  import opened TrapFrame
  import opened Scheduler
  import opened Machine

  /** sstatus as a trap from user code, or from the idle loop, leaves it. */
  const USER_STATUS: Status := Status(false, true, User)
  const IDLE_STATUS: Status := Status(false, true, Super)

  /** The call chains a user process can be suspended in, by its state. */
  ghost predicate UserCall(s: Slot) {
    match s.state
    case Runnable => s.call.Entry? || ((s.call.Tick? || s.call.Getchar? || s.call.Sleep?) && s.call.status == USER_STATUS)
    case Sleeping => (s.call.Getchar? || s.call.Sleep?) && s.call.status == USER_STATUS
    case Exited => s.call.Dead?
    case Unused => true
  }

  /** A slot that has_live_process will never again count. */
  ghost predicate Gone(slots: Slots, j: nat) {
    j < |slots| && (slots[j].pid == 0 || slots[j].state == Exited)
  }

  ghost predicate AllGone(slots: Slots, n: nat) {
    forall j :: 0 <= j < n ==> Gone(slots, j)
  }

  /** Where the scan of has_live_process stands, and what it has established. */
  ghost predicate IdlePoint(slots: Slots, pc: Word, i: nat) {
    && IdlePc(pc)
    && (pc == IDLE_PID ==> i <= PROCS_MAX && AllGone(slots, i))
    && (pc == IDLE_RUNNABLE || pc == IDLE_SLEEPING ==> i < PROCS_MAX == |slots| && slots[i].pid > 0 && AllGone(slots, i))
    && (pc == IDLE_OFF ==> AllGone(slots, PROCS_MAX))
  }

  ghost predicate IdleCall(slots: Slots, s: Slot) {
    || s.call.Boot?
    || (s.call.Tick? && s.call.status == IDLE_STATUS && |s.frame| == FRAME_WORDS
        && IdlePoint(slots, s.call.pc, RegsOf(s.frame)[S1]))
  }

  ghost predicate NoneRunnable(slots: Slots, users: nat)
    requires users < |slots|
  {
    forall i :: 1 <= i <= users ==> slots[i].state != Runnable
  }

  /** Every cached translation, positive or negative, agrees with the tables. */
  ghost predicate Coherent(m: Machine) {
    forall page :: page in m.tlb ==> page * PAGE_SIZE < WORD_LIMIT && m.tlb[page] == Walk(m.ram.mem, m.satp, page * PAGE_SIZE)
  }

  /** Memory, the slots' identities, and the shared CSRs: satp and sscratch are
      those of the current process. */
  ghost predicate Base(m: Machine) {
    && Tidy(m) && MemoryOk(m)
    && 1 <= m.users && m.cur <= m.users
    && Shape(m.slots, m.users)
    && Counted(m.lay, m.ram) && AllInUse(m.ram.book, m.users)
    && m.satp == m.slots[m.cur].root && m.sscratch == m.cur
    && Coherent(m)
    && ValidRegs(m.regs)
  }

  ghost predicate Suspended(m: Machine, i: nat)
    requires i < |m.slots|
  {
    if i == 0 then (m.cur == 0 && m.at == IdleCode) || IdleCall(m.slots, m.slots[0])
    else (m.cur == i && m.at == UserCode) || UserCall(m.slots[i])
  }

  /** Each kind of code runs in its own mode, for a process that may run it. */
  ghost predicate Control(m: Machine)
    requires |m.slots| == PROCS_MAX && m.cur < PROCS_MAX && m.users < PROCS_MAX && |m.regs| == 32
  {
    && (forall i :: 0 <= i <= m.users ==> Suspended(m, i))
    && m.slots[m.cur].state == Runnable
    && match m.at
       case UserCode => m.cur > 0 && m.mode == User && m.sstatus.sie
       case IdleCode =>
         && m.cur == 0 && m.mode == Super && m.sstatus.sie
         && NoneRunnable(m.slots, m.users) && IdlePoint(m.slots, m.pc, m.regs[S1])
       case KernelCode =>
         && m.mode == Super && !m.sstatus.sie
         && (m.cur == 0 ==> NoneRunnable(m.slots, m.users))
  }

  ghost predicate Inv(m: Machine) {
    Base(m) && Control(m)
  }

  // ---- kernel code up to the next call of yield ----

  /** The machine inside the kernel, the current process's call not yet noted. */
  ghost predicate InKernel(m: Machine) {
    Base(m) && m.mode == Super && !m.sstatus.sie && m.at == KernelCode
  }

  /** Slots updated without touching identity and root keep Base. */
  lemma SlotsKeepBase(m: Machine, t: Machine)
    requires Base(m) && t == m.(slots := t.slots) && |t.slots| == PROCS_MAX
    requires forall i :: 0 <= i < PROCS_MAX ==>
      && t.slots[i].root == m.slots[i].root && t.slots[i].pid == m.slots[i].pid
      && |t.slots[i].frame| == FRAME_WORDS
      && (i == 0 || i > m.users ==> t.slots[i].state == m.slots[i].state)
      && (t.slots[i].state == Unused <==> m.slots[i].state == Unused)
    ensures Base(t)
  {
    hide HeapOk, Counted, AllInUse, Walk;
    forall i | 0 <= i < PROCS_MAX ensures SlotShape(t.slots, t.users, i) {
      assert SlotShape(m.slots, m.users, i);
    }
    forall i | 0 <= i <= t.users ensures RootOk(t, i) {
      assert RootOk(m, i);
    }
  }

  lemma TrapEntryInKernel(m: Machine)
    requires Inv(m) && m.at != KernelCode
    ensures InKernel(TrapEntry(m))
    ensures TrapEntry(m).sstatus == if m.at == UserCode then USER_STATUS else IDLE_STATUS
  {
    hide HeapOk, Counted, AllInUse, Walk, IdlePoint;
    var t := TrapEntry(m);
    SlotsKeepBase(m, m.(slots := t.slots));
    forall i | 0 <= i <= t.users ensures RootOk(t, i) {
      assert RootOk(m.(slots := t.slots), i);
    }
  }

  /** yield leaves a machine in order, whoever it switches to. */
  lemma YieldInv(m: Machine, call: Call)
    requires InKernel(m)
    requires m.slots[m.cur].state == Runnable || m.cur > 0
    requires var slots := m.slots[m.cur := m.slots[m.cur].(call := call)];
      && IdleCall(slots, slots[0])
      && forall i :: 1 <= i <= m.users ==> UserCall(slots[i])
    ensures Inv(Yield(m, call))
  {
    hide HeapOk, Counted, AllInUse, Walk, IdlePoint, Pick, IdleCall, UserCall;
    var slots := m.slots[m.cur := m.slots[m.cur].(call := call)];
    var m1, t := m.(slots := slots), Yield(m, call);
    SlotsKeepBase(m, m1);
    PickIsRunnable(slots, m.users, m.cur);
    forall i | 0 <= i <= t.users ensures RootOk(t, i) {
      assert RootOk(m1, i);
    }
    assert t.slots == slots;
    forall i | 0 <= i <= t.users ensures Suspended(t, i) { }
  }

  /** A slot that is gone stays gone: pids never change and EXITED is final. */
  lemma GoneStays(slots: Slots, slots': Slots, pc: Word, i: nat)
    requires IdlePoint(slots, pc, i) && |slots| == |slots'| == PROCS_MAX
    requires forall j :: 0 <= j < PROCS_MAX ==>
      slots'[j].pid == slots[j].pid && (slots[j].state == Exited ==> slots'[j].state == Exited)
    ensures IdlePoint(slots', pc, i)
  {
    forall n: nat | n <= PROCS_MAX && AllGone(slots, n) ensures AllGone(slots', n) {
      forall j | 0 <= j < n ensures Gone(slots', j) { assert Gone(slots, j); }
    }
  }

  /** The end of a trap: back to the code that was interrupted. */
  lemma TrapReturnInv(m: Machine, pc: Word, status: Status)
    requires InKernel(m) && m.slots[m.cur].state == Runnable
    requires forall i :: 0 <= i <= m.users && i != m.cur ==> Suspended(m, i)
    requires m.cur > 0 ==> status == USER_STATUS
    requires m.cur == 0 ==>
      status == IDLE_STATUS && NoneRunnable(m.slots, m.users) && IdlePoint(m.slots, pc, RegsOf(m.slots[0].frame)[S1])
    ensures Inv(TrapReturn(m, pc, status))
  {
    hide HeapOk, Counted, AllInUse, Walk, IdlePoint, IdleCall, UserCall;
    var t := TrapReturn(m, pc, status);
    forall i | 0 <= i <= t.users ensures RootOk(t, i) { assert RootOk(m, i); }
    forall i | 0 <= i <= t.users ensures Suspended(t, i) {
      assert i != m.cur ==> Suspended(m, i);
    }
  }

  lemma SyscallReturnInv(m: Machine, pc: Word, v: Word)
    requires InKernel(m) && m.slots[m.cur].state == Runnable && m.cur > 0
    requires forall i :: 0 <= i <= m.users && i != m.cur ==> Suspended(m, i)
    ensures Inv(SyscallReturn(m, pc, USER_STATUS, v))
  {
    hide HeapOk, Counted, AllInUse, Walk, IdlePoint, UserCall, TrapReturn;
    var s := m.slots[m.cur];
    var m1 := m.(slots := m.slots[m.cur := s.(frame := s.frame[FRAME_A0 := v])]);
    SlotsKeepBase(m, m1);
    forall i | 0 <= i <= m1.users && i != m1.cur ensures Suspended(m1, i) {
      assert Suspended(m, i);
      if i == 0 && m.slots[0].call.Tick? {
        GoneStays(m.slots, m1.slots, m.slots[0].call.pc, RegsOf(m.slots[0].frame)[S1]);
      }
    }
    TrapReturnInv(m1, (pc + 4) % WORD_LIMIT, USER_STATUS);
  }

  /** Between trap entry and the next yield: the others are still suspended. */
  lemma OthersStay(m: Machine, slots': Slots)
    requires Tidy(m) && m.users < PROCS_MAX && |slots'| == PROCS_MAX
    requires forall j :: 0 <= j < PROCS_MAX ==>
      slots'[j].pid == m.slots[j].pid && (m.slots[j].state == Exited ==> slots'[j].state == Exited)
    requires IdleCall(m.slots, m.slots[0]) && slots'[0].call == m.slots[0].call && slots'[0].frame == m.slots[0].frame
    ensures IdleCall(slots', slots'[0])
  {
    hide IdlePoint;
    if m.slots[0].call.Tick? {
      GoneStays(m.slots, slots', m.slots[0].call.pc, RegsOf(m.slots[0].frame)[S1]);
    }
  }

  lemma TimerInv(m: Machine, now: nat)
    requires Inv(m) && m.at != KernelCode
    ensures Inv(TimerTrap(m, now, true).(clock := now))
  {
    hide HeapOk, Counted, AllInUse, Walk, IdlePoint, Yield, IdleCall;
    var e := TrapEntry(m);
    TrapEntryInKernel(m);
    var e1 := e.(slots := Wake(e.slots, now));
    forall i | 0 <= i < PROCS_MAX ensures i == 0 || i > m.users ==> e1.slots[i].state == e.slots[i].state {
      assert SlotShape(e.slots, e.users, i);
    }
    SlotsKeepBase(e, e1);
    var call := Tick(e.sepc, e.sstatus);
    var slots := e1.slots[e1.cur := e1.slots[e1.cur].(call := call)];
    forall i | 1 <= i <= m.users ensures UserCall(slots[i]) {
      assert Suspended(m, i);
    }
    TimerIdleCall(m, now);
    YieldInv(e1, call);
    ClockFree(Yield(e1, call), now);
  }

  lemma TimerIdleCall(m: Machine, now: nat)
    requires Inv(m) && m.at != KernelCode
    ensures var e := TrapEntry(m);
      var w := Wake(e.slots, now);
      var slots := w[e.cur := w[e.cur].(call := Tick(e.sepc, e.sstatus))];
      IdleCall(slots, slots[0])
  {
    hide HeapOk, Counted, AllInUse, Walk, IdlePoint;
    var e := TrapEntry(m);
    var w := Wake(e.slots, now);
    var slots := w[e.cur := w[e.cur].(call := Tick(e.sepc, e.sstatus))];
    assert Suspended(m, 0);
    if m.cur == 0 {
      TrapEntryInKernel(m);
      RestoreUndoesSave(m.regs, m.slots[0].frame[31]);
      GoneStays(m.slots, slots, m.pc, m.regs[S1]);
    } else {
      forall j | 0 <= j < PROCS_MAX
        ensures slots[j].pid == m.slots[j].pid && (m.slots[j].state == Exited ==> slots[j].state == Exited)
      {
        assert slots[j] == WakeSlot(e.slots[j], now) || slots[j] == WakeSlot(e.slots[j], now).(call := Tick(e.sepc, e.sstatus));
      }
      OthersStay(m, slots);
    }
  }

  /** The clock is no part of the invariant. */
  lemma ClockFree(m: Machine, now: nat)
    requires Inv(m)
    ensures Inv(m.(clock := now))
  {
    hide HeapOk, Counted, AllInUse, Walk, IdlePoint, IdleCall, UserCall;
    var t := m.(clock := now);
    forall i | 0 <= i <= t.users ensures RootOk(t, i) { assert RootOk(m, i); }
    forall i | 0 <= i <= t.users ensures Suspended(t, i) { assert Suspended(m, i); }
  }

  lemma BlockInv(m: Machine, now: nat, ms: nat, call: Call)
    requires InKernel(m) && m.cur > 0 && m.slots[m.cur].state == Runnable
    requires (call.Getchar? || call.Sleep?) && call.status == USER_STATUS
    requires forall i :: 0 <= i <= m.users && i != m.cur ==> Suspended(m, i)
    ensures Inv(Block(m, now, ms, call).(clock := now))
  {
    hide HeapOk, Counted, AllInUse, Walk, IdlePoint, Yield;
    var s := m.slots[m.cur];
    var m1 := m.(slots := m.slots[m.cur := s.(state := Sleeping, wake := WakeTime(now, ms, m.ticksPerMs))]);
    SlotsKeepBase(m, m1);
    YieldOthers(m, m1, call);
    YieldInv(m1, call);
    ClockFree(Yield(m1, call), now);
  }

  /** Only the current user slot changed since the others were suspended. */
  lemma YieldOthers(m: Machine, m1: Machine, call: Call)
    requires InKernel(m) && InKernel(m1) && m.cur > 0 && m1 == m.(slots := m1.slots)
    requires m.slots[m.cur].state != Exited && m1.slots == m.slots[m.cur := m1.slots[m.cur]]
    requires forall i :: 0 <= i <= m.users && i != m.cur ==> Suspended(m, i)
    requires UserCall(m1.slots[m.cur].(call := call))
    ensures var slots := m1.slots[m.cur := m1.slots[m.cur].(call := call)];
      && IdleCall(slots, slots[0])
      && forall i :: 1 <= i <= m.users ==> UserCall(slots[i])
  {
    hide HeapOk, Counted, AllInUse, Walk, IdlePoint, IdleCall;
    var slots := m1.slots[m.cur := m1.slots[m.cur].(call := call)];
    assert Suspended(m, 0);
    forall j | 0 <= j < PROCS_MAX ensures slots[j].pid == m.slots[j].pid {
      assert SlotShape(m.slots, m.users, j) && SlotShape(m1.slots, m.users, j);
    }
    OthersStay(m, slots);
    forall i | 1 <= i <= m.users ensures UserCall(slots[i]) {
      if i != m.cur { assert Suspended(m, i); }
    }
  }

  // ---- translation through the cache, page faults and stores ----

  /** With a coherent cache, user accesses are those of a fresh walk. */
  lemma ReachIsTranslate(m: Machine, va: Word, access: Access)
    requires Base(m) && m.mode == User
    ensures Root(m.cur + 1) in m.ram.book && m.satp == m.ram.book[Root(m.cur + 1)]
    ensures Reach(m, va, access) == Translate(m.ram.mem, m.satp, va, access, User)
  {
    hide HeapOk, Counted, AllInUse, Walk, Shape;
    assert RootOk(m, m.cur);
    if va / PAGE_SIZE in m.tlb {
      WalkByPage(m.lay, m.ram, m.cur + 1, va);
    }
  }

  lemma WalkByPage(lay: Layout, r: Ram, s: nat, va: nat)
    requires HeapOk(lay, r) && Root(s) in r.book
    ensures Walk(r.mem, r.book[Root(s)], va) == Walk(r.mem, r.book[Root(s)], va / PAGE_SIZE * PAGE_SIZE)
  {
    hide HeapOk, Walk, UserLabel, LeafPte, InUserRange;
    var base := va / PAGE_SIZE * PAGE_SIZE;
    WalkIsSpaceLeaf(lay, r, s, va);
    WalkIsSpaceLeaf(lay, r, s, base);
    SamePageLabel(s, va, base);
    SameKernelPage(lay, va, base);
  }

  lemma SameKernelPage(lay: Layout, va: nat, vb: nat)
    requires va / PAGE_SIZE == vb / PAGE_SIZE
    ensures InKernelRange(lay, va) <==> InKernelRange(lay, vb)
  {
  }

  lemma SamePageLabel(s: nat, va: nat, vb: nat)
    requires va / PAGE_SIZE == vb / PAGE_SIZE
    ensures UserLabel(s, va) == UserLabel(s, vb) && (InUserRange(va) <==> InUserRange(vb))
  {
    if va < 0x40_0000_0000 { SamePage(va, vb); } else if vb < 0x40_0000_0000 { SamePage(vb, va); }
    PageVpn(va);
    PageVpn(vb);
  }

  lemma PageVpn(va: nat)
    ensures Vpn(va, 0) == va / PAGE_SIZE % 512 && Vpn(va, 1) == va / PAGE_SIZE / 512 % 512
  {
  }

  /** A user fault in range is a fault on an empty page. */
  lemma FaultIsVacant(m: Machine, va: Word, access: Access)
    requires Base(m) && m.mode == User && m.cur > 0 && InUserRange(va) && Reach(m, va, access) == Fault
    ensures UserLabel(m.cur + 1, AlignDown(va)) == UserLabel(m.cur + 1, va) && UserLabel(m.cur + 1, va) !in m.ram.book
    ensures InUserRange(AlignDown(va)) && AlignDown(va) % PAGE_SIZE == 0
  {
    hide Base, Reach, Translate;
    BaseHeap(m);
    ReachIsTranslate(m, va, access);
    TranslateUser(m.lay, m.ram, m.cur + 1, va, access);
    SamePageLabel(m.cur + 1, va, AlignDown(va));
  }

  lemma BaseHeap(m: Machine)
    requires Base(m)
    ensures Tidy(m) && MemoryOk(m) && HeapOk(m.lay, m.ram) && m.cur <= m.users && RootOk(m, m.cur)
    ensures Root(m.cur + 1) in m.ram.book && m.slots[m.cur].root == m.ram.book[Root(m.cur + 1)] == m.satp
    ensures Counted(m.lay, m.ram) && AllInUse(m.ram.book, m.users)
  {
    assert RootOk(m, m.cur);
  }

  /** The page that a fault handed out leaves memory in order for everyone, and
      only the cached translation of its own page is out of date. */
  lemma GiveKeepsBase(m: Machine, va: Word, ram: Ram)
    requires Base(m) && m.cur > 0 && InUserRange(va)
    requires UserLabel(m.cur + 1, AlignDown(va)) == UserLabel(m.cur + 1, va) && UserLabel(m.cur + 1, va) !in m.ram.book
    requires InUserRange(AlignDown(va)) && AlignDown(va) % PAGE_SIZE == 0 && Vpn(AlignDown(va), 2) != KERNEL_VPN2
    requires Tree(m.lay, m.ram) && Root(m.cur + 1) in m.ram.book
    requires GivePage(m.lay, m.ram, m.cur + 1, m.ram.book[Root(m.cur + 1)], AlignDown(va), []) == Done(ram)
    ensures Base(m.(ram := ram, tlb := m.tlb - {va / PAGE_SIZE}))
  {
    hide HeapOk, Counted, AllInUse, Walk, GivePage, Tree, Given, Shape, Tidy, UserLabel, AlignDown, Vpn, Coherent;
    var (s, t) := (m.cur + 1, m.(ram := ram, tlb := m.tlb - {va / PAGE_SIZE}));
    var r2, r3 := GiveSteps(m.lay, m.ram, s, AlignDown(va), []);
    GiveKeepsHeap(m.lay, m.ram, r2, r3, ram, s, AlignDown(va), []);
    GiveExtendsBook(m.lay, m.ram, r2, r3, ram, s, AlignDown(va), []);
    GiveInUse(m.lay, m.ram, r2, r3, ram, s, AlignDown(va), [], m.users);
    forall i | 0 <= i <= m.users && RootOk(m, i) ensures RootOk(t, i) { }
    assert RootOk(m, m.cur);
    GiveKeepsCoherent(m, va, ram);
    MemoryKeepsBase(m, t);
  }

  lemma GiveKeepsCoherent(m: Machine, va: Word, ram: Ram)
    requires Coherent(m) && HeapOk(m.lay, m.ram) && HeapOk(m.lay, ram) && InUserRange(va)
    requires Root(m.cur + 1) in m.ram.book && m.satp == m.ram.book[Root(m.cur + 1)]
    requires forall x :: x in m.ram.book && x != UserLabel(m.cur + 1, va) ==> x in ram.book && ram.book[x] == m.ram.book[x]
    requires forall x :: x in ram.book && x !in m.ram.book ==> x == UserLabel(m.cur + 1, va) || !x.Page?
    ensures Coherent(m.(ram := ram, tlb := m.tlb - {va / PAGE_SIZE}))
  {
    hide HeapOk, Walk, UserLabel;
    forall page | page in m.tlb && page != va / PAGE_SIZE
      ensures Walk(ram.mem, m.satp, page * PAGE_SIZE) == Walk(m.ram.mem, m.satp, page * PAGE_SIZE)
    {
      GiveWalk(m.lay, m.ram, ram, m.cur + 1, va, m.cur + 1, page * PAGE_SIZE);
    }
  }

  lemma MemoryKeepsBase(m: Machine, t: Machine)
    requires Base(m) && t == m.(ram := t.ram, tlb := t.tlb)
    requires HeapOk(m.lay, t.ram) && Counted(m.lay, t.ram) && AllInUse(t.ram.book, m.users) && Coherent(t)
    requires forall i :: 0 <= i <= m.users && RootOk(m, i) ==> RootOk(t, i)
    ensures Base(t)
  {
    hide HeapOk, Counted, AllInUse, Coherent;
    forall i | 0 <= i <= t.users ensures RootOk(t, i) { assert RootOk(m, i); }
  }

  lemma GiveWalk(lay: Layout, r: Ram, r': Ram, s: nat, va: nat, k: nat, a: nat)
    requires HeapOk(lay, r) && HeapOk(lay, r') && Root(k) in r.book && InUserRange(va)
    requires k != s || a / PAGE_SIZE != va / PAGE_SIZE
    requires forall x :: x in r.book && x != UserLabel(s, va) ==> x in r'.book && r'.book[x] == r.book[x]
    requires forall x :: x in r'.book && x !in r.book ==> x == UserLabel(s, va) || !x.Page?
    ensures Root(k) in r'.book && r'.book[Root(k)] == r.book[Root(k)]
    ensures Walk(r'.mem, r'.book[Root(k)], a) == Walk(r.mem, r.book[Root(k)], a)
  {
    hide HeapOk, Walk;
    WalkIsSpaceLeaf(lay, r, k, a);
    WalkIsSpaceLeaf(lay, r', k, a);
    UserVpns(va);
    UserVpns(a);
    SamePage(va, a);
  }

  lemma FaultInv(m: Machine, va: Word, access: Access)
    requires Inv(m) && m.at == UserCode && Reach(m, va, access) == Fault
    ensures FaultTrap(m, va).power != Panicked ==> Inv(FaultTrap(m, va))
  {
    hide HeapOk, Counted, AllInUse, Walk, GivePage, IdlePoint, Base, TrapReturn, Reach;
    BaseHeap(m);
    TrapEntryInKernel(m);
    var e, t := TrapEntry(m), FaultTrap(m, va);
    if t.power != Panicked && InUserRange(va) {
      FaultReady(m, va);
      FaultIsVacant(m, va, access);
      var ram := GivePage(m.lay, m.ram, m.cur + 1, m.slots[m.cur].root, AlignDown(va), []).value;
      GiveKeepsBase(e, va, ram);
      var e1 := e.(ram := ram, tlb := e.tlb - {va / PAGE_SIZE});
      forall i | 0 <= i <= m.users && i != m.cur ensures Suspended(e1, i) {
        assert Suspended(m, i);
        EntryKeepsOthers(m, i);
      }
      TrapReturnInv(e1, e.sepc, e.sstatus);
    }
  }

  /** A trap of user code touches no other process. */
  lemma EntryKeepsOthers(m: Machine, i: nat)
    requires Inv(m) && m.at == UserCode && i <= m.users && i != m.cur
    ensures Suspended(TrapEntry(m), i)
  {
    hide HeapOk, Counted, AllInUse, Walk, IdlePoint;
    assert Suspended(m, i);
    if i == 0 { OthersStay(m, TrapEntry(m).slots); }
  }

  lemma StoreInv(m: Machine, va: Word, b: Byte, pc: Word, pa: nat)
    requires Inv(m) && m.at == UserCode && Reach(m, va, Store) == At(pa)
    ensures pa / 8 < |m.ram.mem|
    ensures Inv(m.(ram := m.ram.(mem := PhysMemory.StoreByte(m.ram.mem, pa, b)), pc := pc))
  {
    hide HeapOk, AllInUse, Walk, IdlePoint, Translate, Reach, PhysMemory.StoreByte, IdleCall, UserCall;
    BaseHeap(m);
    ReachIsTranslate(m, va, Store);
    StoreIsLocal(m.lay, m.ram, m.cur + 1, va, pa, b);
    var t := m.(ram := m.ram.(mem := PhysMemory.StoreByte(m.ram.mem, pa, b)), pc := pc);
    StoreKeepsCoherent(m, va, pa, b);
    forall i | 0 <= i <= t.users ensures RootOk(t, i) { assert RootOk(m, i); }
    forall i | 0 <= i <= t.users ensures Suspended(t, i) { assert Suspended(m, i); }
  }

  lemma StoreKeepsCoherent(m: Machine, va: Word, pa: nat, b: Byte)
    requires Base(m) && HeapOk(m.lay, m.ram) && Root(m.cur + 1) in m.ram.book && m.satp == m.ram.book[Root(m.cur + 1)]
    requires Translate(m.ram.mem, m.ram.book[Root(m.cur + 1)], va, Store, User) == At(pa) && pa / 8 < |m.ram.mem|
    ensures Coherent(m.(ram := m.ram.(mem := PhysMemory.StoreByte(m.ram.mem, pa, b))))
  {
    hide HeapOk, Counted, AllInUse, Walk, Translate, PhysMemory.StoreByte;
    forall page | page in m.tlb
      ensures Walk(PhysMemory.StoreByte(m.ram.mem, pa, b), m.satp, page * PAGE_SIZE) == Walk(m.ram.mem, m.satp, page * PAGE_SIZE)
    {
      StoreKeepsWalks(m.lay, m.ram, m.cur + 1, va, pa, b, m.cur + 1, page * PAGE_SIZE);
    }
  }

  // ---- the remaining steps ----

  lemma EcallInv(m: Machine, now: nat)
    requires Inv(m) && m.at == UserCode
    ensures EcallTrap(m, now).power != Panicked ==> Inv(EcallTrap(m, now).(clock := now))
  {
    hide HeapOk, Counted, AllInUse, Walk, IdlePoint, Yield, Block, SyscallReturn, Suspended, Base;
    BaseIsTidy(m);
    var e := TrapEntry(m);
    TrapEntryInKernel(m);
    forall i | 0 <= i <= m.users && i != m.cur ensures Suspended(e, i) { EntryKeepsOthers(m, i); }
    var s := e.slots[e.cur];
    var (num, arg, ms) := (s.frame[FRAME_A3], s.frame[FRAME_A0], s.frame[FRAME_A0] % 0x1_0000_0000);
    if num == SYS_PUTCHAR || (num == SYS_SLEEP && (ms == 0 || ms > MAX_SLEEP_MS)) {
      SyscallReturnInv(e, e.sepc, 0);
      ClockFree(SyscallReturn(e, e.sepc, USER_STATUS, 0), now);
    } else if num == SYS_GETPID {
      SyscallReturnInv(e, e.sepc, s.pid);
      ClockFree(SyscallReturn(e, e.sepc, USER_STATUS, s.pid), now);
    } else if num == SYS_GETCHAR {
      GetcharInv(e);
      ClockFree(e.(slots := e.slots[e.cur := s.(call := Getchar(e.sepc, e.sstatus))]), now);
    } else if num == SYS_SLEEP {
      BlockInv(e, now, ms, Sleep(e.sepc, e.sstatus));
    } else if num == SYS_EXIT {
      ExitInv(e);
      ClockFree(Yield(e.(slots := e.slots[e.cur := s.(state := Exited)]), Dead), now);
    }
  }

  lemma BaseIsTidy(m: Machine)
    requires Base(m)
    ensures Tidy(m) && m.users < PROCS_MAX && m.cur <= m.users && SlotShape(m.slots, m.users, m.cur)
  {
  }

  lemma GetcharInv(m: Machine)
    requires InKernel(m) && m.cur > 0 && m.slots[m.cur].state == Runnable && m.sstatus == USER_STATUS
    requires forall i :: 0 <= i <= m.users && i != m.cur ==> Suspended(m, i)
    ensures Inv(m.(slots := m.slots[m.cur := m.slots[m.cur].(call := Getchar(m.sepc, m.sstatus))]))
  {
    hide HeapOk, Counted, AllInUse, Walk, IdlePoint;
    var t := m.(slots := m.slots[m.cur := m.slots[m.cur].(call := Getchar(m.sepc, m.sstatus))]);
    SlotsKeepBase(m, t);
    forall i | 0 <= i <= t.users ensures Suspended(t, i) {
      assert i != m.cur ==> Suspended(m, i);
      if i == 0 { OthersStay(m, t.slots); }
    }
  }

  lemma ExitInv(m: Machine)
    requires InKernel(m) && m.cur > 0 && m.slots[m.cur].state == Runnable
    requires forall i :: 0 <= i <= m.users && i != m.cur ==> Suspended(m, i)
    ensures Inv(Yield(m.(slots := m.slots[m.cur := m.slots[m.cur].(state := Exited)]), Dead))
  {
    hide HeapOk, Counted, AllInUse, Walk, IdlePoint, Yield;
    var m1 := m.(slots := m.slots[m.cur := m.slots[m.cur].(state := Exited)]);
    SlotsKeepBase(m, m1);
    YieldOthers(m, m1, Dead);
    YieldInv(m1, Dead);
  }

  lemma ResumeInv(m: Machine, now: nat, ch: int, junk: Regs)
    requires Inv(m) && m.at == KernelCode && |junk| == 32 && ch < WORD_LIMIT
    ensures Resume(m, now, ch, junk).power != Panicked ==> Inv(Resume(m, now, ch, junk))
  {
    hide HeapOk, Counted, AllInUse, Walk, IdlePoint, Yield, Block, SyscallReturn, TrapReturn;
    var call := m.slots[m.cur].call;
    assert Suspended(m, m.cur);
    forall i | 0 <= i <= m.users && i != m.cur ensures Suspended(m, i) { }
    match call
    case Entry =>
      var t := Resume(m, now, ch, junk);
      forall i | 0 <= i <= t.users ensures RootOk(t, i) { assert RootOk(m, i); }
      forall i | 0 <= i <= t.users ensures Suspended(t, i) { assert Suspended(m, i); }
    case Boot =>
      BootInv(m, now, ch, junk);
    case Tick(pc, status) => TrapReturnInv(m, pc, status);
    case Getchar(pc, status) =>
      if ch >= 0 { SyscallReturnInv(m, pc, ch); } else { BlockInv(m, now, TICK_INTERVAL_MS, call); }
    case Sleep(pc, status) => SyscallReturnInv(m, pc, 0);
    case Dead =>
  }

  lemma BootInv(m: Machine, now: nat, ch: int, junk: Regs)
    requires Inv(m) && m.at == KernelCode && |junk| == 32 && ch < WORD_LIMIT
    requires m.slots[m.cur].call.Boot?
    ensures Inv(Resume(m, now, ch, junk))
  {
    hide HeapOk, Counted, AllInUse, Walk;
    assert Suspended(m, m.cur);
    var t := Resume(m, now, ch, junk);
    forall i | 0 <= i <= t.users ensures RootOk(t, i) { assert RootOk(m, i); }
    forall i | 0 <= i <= t.users ensures Suspended(t, i) { assert Suspended(m, i); }
  }

  lemma IdleInv(m: Machine)
    requires Inv(m) && m.at == IdleCode
    ensures Inv(IdleStep(m))
  {
    hide HeapOk, Counted, AllInUse, Walk, UserCall, IdleCall;
    var t := IdleStep(m);
    forall i | 0 <= i <= t.users ensures RootOk(t, i) { assert RootOk(m, i); }
    forall i | 0 <= i <= t.users ensures Suspended(t, i) { assert Suspended(m, i); }
    IdleScan(m);
  }

  /** One step of the scan: a slot passed over is gone for good. */
  lemma IdleScan(m: Machine)
    requires |m.slots| == PROCS_MAX && |m.regs| == 32 && Shape(m.slots, m.users)
    requires NoneRunnable(m.slots, m.users) && IdlePoint(m.slots, m.pc, m.regs[S1])
    ensures IdlePoint(m.slots, IdleStep(m).pc, IdleStep(m).regs[S1])
  {
    var i := m.regs[S1];
    if i < PROCS_MAX { assert SlotShape(m.slots, m.users, i); }
    if m.pc != IDLE_WFI && m.pc != IDLE_OFF && i < PROCS_MAX && IdleStep(m).regs[S1] == i + 1 {
      assert Gone(m.slots, i);
      forall j | 0 <= j < i + 1 ensures Gone(m.slots, j) { }
    }
  }

  lemma CacheInv(m: Machine, tlb: map<nat, Leaf>)
    requires Inv(m) && Coherent(m.(tlb := tlb))
    ensures Inv(m.(tlb := tlb))
  {
    hide HeapOk, Counted, AllInUse, Walk, IdlePoint, IdleCall, UserCall, Coherent;
    var t := m.(tlb := tlb);
    forall i | 0 <= i <= t.users ensures RootOk(t, i) { assert RootOk(m, i); }
    forall i | 0 <= i <= t.users ensures Suspended(t, i) { assert Suspended(m, i); }
  }

  lemma RegsInv(m: Machine, regs: Regs, pc: Word)
    requires Inv(m) && m.at == UserCode && ValidRegs(regs)
    ensures Inv(m.(regs := regs, pc := pc))
  {
    hide HeapOk, Counted, AllInUse, Walk, IdlePoint, IdleCall, UserCall;
    var t := m.(regs := regs, pc := pc);
    forall i | 0 <= i <= t.users ensures RootOk(t, i) { assert RootOk(m, i); }
    forall i | 0 <= i <= t.users ensures Suspended(t, i) { assert Suspended(m, i); }
  }

  lemma UserInv(m: Machine, op: Op)
    requires Inv(m) && Enabled(m, Instruction(op))
    requires Tidy(m) && MemoryOk(m) && m.cur <= m.users
    ensures UserStep(m, op).power != Panicked ==> Inv(UserStep(m, op))
  {
    hide Inv, Reach, FaultTrap, EcallTrap, PhysMemory.StoreByte, RamByte, TrapEntry;
    if Reach(m, m.pc, Fetch) == Fault {
      FaultInv(m, m.pc, Fetch);
    } else {
      match op
      case Alu(regs, pc) => RegsInv(m, regs, pc);
      case LoadByte(va, rd, pc) =>
        if Reach(m, va, Load) == Fault { FaultInv(m, va, Load); } else { LoadInv(m, op); }
      case StoreByte(va, b, pc) =>
        if Reach(m, va, Store) == Fault { FaultInv(m, va, Store); } else { StoreInv(m, va, b, pc, Reach(m, va, Store).pa); }
      case Ecall(now) => EcallInv(m, now); EcallClock(m, now);
      case OtherTrap =>
    }
  }

  lemma EcallClock(m: Machine, now: nat)
    requires Tidy(m)
    ensures EcallTrap(m, now).(clock := now).power == EcallTrap(m, now).power
  {
  }

  lemma LoadInv(m: Machine, op: Op)
    requires Inv(m) && m.at == UserCode && op.LoadByte? && op.rd < 32 && m.power == On
    requires Reach(m, m.pc, Fetch) != Fault && Reach(m, op.va, Load) != Fault
    requires Tidy(m) && MemoryOk(m) && m.cur <= m.users
    ensures Inv(UserStep(m, op))
  {
    hide Inv, Reach, RamByte;
    InvRegs(m);
    RegsInv(m, UserStep(m, op).regs, op.pc);
  }

  lemma InvRegs(m: Machine)
    requires Inv(m)
    ensures ValidRegs(m.regs)
  {
  }

  // ---- kernel accesses ----

  /** Whoever runs, and also between trap entry and the end of a trap: under the current
      satp, and through the cache, the kernel reaches every address of its range, and
      there memory is where it seems to be. */
  lemma KernelSeesItself(m: Machine, a: Word, access: Access)
    requires Base(m) && m.mode == Super && InKernelRange(m.lay, a)
    ensures Reach(m, a, access) == At(a)
  {
    hide Base, HeapOk, Translate, Walk;
    BaseHeap(m);
    BaseCoherent(m);
    KernelIdentity(m.lay, m.ram, m.cur + 1, a, access);
    KernelReach(m, a, access);
  }

  lemma BaseCoherent(m: Machine)
    requires Base(m)
    ensures Coherent(m)
  {
  }

  lemma KernelReach(m: Machine, a: Word, access: Access)
    requires Coherent(m) && HeapOk(m.lay, m.ram) && Root(m.cur + 1) in m.ram.book && m.satp == m.ram.book[Root(m.cur + 1)]
    ensures Reach(m, a, access) == Translate(m.ram.mem, m.satp, a, access, m.mode)
  {
    hide HeapOk, Walk;
    if a / PAGE_SIZE in m.tlb { WalkByPage(m.lay, m.ram, m.cur + 1, a); }
  }

  /** Right after a trap, before anything has been saved or changed. */
  lemma TrapSeesItself(m: Machine, a: Word, access: Access)
    requires Inv(m) && m.at != KernelCode && InKernelRange(m.lay, a)
    ensures Tidy(m) && Reach(TrapEntry(m), a, access) == At(a)
  {
    hide Inv, Base, TrapEntry, Reach;
    TrapEntryInKernel(m);
    InvReady(m);
    SameLayout(m);
    KernelSeesItself(TrapEntry(m), a, access);
  }

  lemma SameLayout(m: Machine)
    requires Tidy(m)
    ensures TrapEntry(m).lay == m.lay
  {
  }

  /** Kernel code is never interrupted by a page fault of its own. */
  lemma KernelNeverFaults(m: Machine, a: Word, access: Access)
    requires Inv(m) && m.at != UserCode && InKernelRange(m.lay, a)
    ensures Reach(m, a, access) != Fault
  {
    hide HeapOk, Counted, AllInUse, Walk, Coherent, Reach;
    KernelSeesItself(m, a, access);
  }

  /** What a step needs, from the invariant. */
  lemma InvReady(m: Machine)
    requires Inv(m)
    ensures Tidy(m) && MemoryOk(m) && m.cur <= m.users
  {
  }

  /** Every step of the machine that does not end in a PANIC keeps the invariant. */
  lemma StepInv(m: Machine, e: Event)
    requires Inv(m) && Tidy(m) && MemoryOk(m) && m.cur <= m.users && Enabled(m, e)
    ensures Next(m, e).power != Panicked ==> Inv(Next(m, e))
  {
    hide Inv, UserStep, TimerTrap, IdleStep, Resume, Walk, Coherent, MemoryOk, Tidy, Reach, FaultTrap;
    match e
    case Instruction(op) => UserInv(m, op);
    case TimerInterrupt(now, armed) =>
      if armed { TimerInv(m, now); } else { Unarmed(m, now); }
    case IdleInstruction => IdleInv(m);
    case KernelContinues(now, ch, junk) => ResumeInv(m, now, ch, junk);
    case KernelAccess(a, access) => KernelNeverFaults(m, a, access);
    case CacheFill(page) =>
      FillCoherent(m, page);
      CacheInv(m, Next(m, e).tlb);
    case CacheEvict(page) =>
      EvictCoherent(m, page);
      CacheInv(m, Next(m, e).tlb);
  }

  lemma Unarmed(m: Machine, now: nat)
    requires Tidy(m)
    ensures TimerTrap(m, now, false).power == Panicked
  {
  }

  lemma FillCoherent(m: Machine, page: nat)
    requires Inv(m) && page * PAGE_SIZE < WORD_LIMIT
    ensures Coherent(m.(tlb := m.tlb[page := Walk(m.ram.mem, m.satp, page * PAGE_SIZE)]))
  {
    hide Walk, MemoryOk, Control, Tidy, Shape;
  }

  lemma EvictCoherent(m: Machine, page: nat)
    requires Inv(m)
    ensures Coherent(m.(tlb := m.tlb - {page}))
  {
    hide Walk, MemoryOk, Control, Tidy, Shape;
  }

  /** The machine's fixed parameters. */
  ghost predicate SameSystem(m: Machine, t: Machine) {
    t.users == m.users && t.lay == m.lay && t.ticksPerMs == m.ticksPerMs
  }

  lemma StepUsers(m: Machine, e: Event)
    requires Tidy(m) && MemoryOk(m) && m.cur <= m.users && Enabled(m, e)
    ensures SameSystem(m, Next(m, e))
  {
    hide Pick, Walk, Reach, RegsOf, FrameOf, FaultTrap, PhysMemory.StoreByte, RamByte, EcallTrap, TrapReturn, MemoryOk, Tidy;
    EcallUsers(m, if e.Instruction? && e.op.Ecall? then e.op.now else 0);
    if e.Instruction? {
      FaultUsers(m, m.pc);
      if e.op.LoadByte? { FaultUsers(m, e.op.va); }
      if e.op.StoreByte? { FaultUsers(m, e.op.va); }
    } else if e.KernelContinues? {
      ResumeUsers(m, e.now, e.ch, e.junk);
    } else if e.KernelAccess? {
      FaultUsers(m, e.a);
    }
  }

  lemma EcallUsers(m: Machine, now: nat)
    requires Tidy(m)
    ensures SameSystem(m, EcallTrap(m, now))
  {
    hide Pick, RegsOf;
  }

  lemma FaultUsers(m: Machine, va: Word)
    requires Tidy(m) && MemoryOk(m) && m.cur <= m.users
    ensures SameSystem(m, FaultTrap(m, va))
  {
    hide GivePage, RegsOf, MemoryOk;
  }

  lemma ResumeUsers(m: Machine, now: nat, ch: int, junk: Regs)
    requires Tidy(m) && |junk| == 32 && ch < WORD_LIMIT
    ensures SameSystem(m, Resume(m, now, ch, junk))
  {
    hide Pick, RegsOf;
  }

  // ---- runs ----

  /** m, after the events, without a PANIC or shutdown on the way. */
  ghost predicate Runs(m: Machine, events: seq<Event>, t: Machine)
    decreases |events|
  {
    if |events| == 0 then t == m
    else
      && Tidy(m) && MemoryOk(m) && m.cur <= m.users && Enabled(m, events[0])
      && Runs(Next(m, events[0]), events[1..], t)
  }

  /** The invariant holds in every state that any run reaches before a PANIC. */
  lemma {:induction false} RunInv(m: Machine, events: seq<Event>, t: Machine)
    requires Inv(m) && Runs(m, events, t) && t.power != Panicked
    ensures Inv(t)
    decreases |events|
  {
    hide Inv, Enabled, Next, Tidy, MemoryOk;
    if |events| > 0 {
      StepInv(m, events[0]);
      if Next(m, events[0]).power == Panicked {
        PanicIsFinal(Next(m, events[0]), events[1..], t);
      } else {
        RunInv(Next(m, events[0]), events[1..], t);
      }
    }
  }

  lemma PanicIsFinal(m: Machine, events: seq<Event>, t: Machine)
    requires m.power == Panicked && Runs(m, events, t)
    ensures t == m
  {
    hide Next;
  }
}
