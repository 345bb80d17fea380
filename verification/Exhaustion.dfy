/** The memory limit is exact: with as many free pages no run of the system panics
    for want of memory, and with one page less some run does. */
module Exhaustion {
  import opened Words
  import opened Sv39
  import opened Pte
  import opened PhysMemory
  import opened PageTables
  import opened Heap
  import opened UserPages
  import opened FlatView
  import opened AddressSpaces
  import opened Budget
  import opened TrapFrame
  import opened Scheduler
  import opened Machine
  import opened Invariant
  import opened Scheduling
  import opened Sleeping
  import opened Faults
  import opened Boot
  import opened Startup
  import opened BootMemory

  // ---- a machine with nothing left to map uses the whole limit ----

  /** The label of a rank: the inverse of Rank. */
  function Unrank(lay: Layout, k: nat): Label
    requires lay.Ok()
  {
    var tables := KernelTables(lay);
    if k == 0 then Root(0)
    else if k == 1 then Mid(0, KERNEL_VPN2)
    else if k < tables then Low(0, KERNEL_VPN2, FIRST_LOW + (k - 2))
    else if k == tables then Root(1)
    else UserUnrank((k - tables - 1) / PAGES_PER_USER + 2, (k - tables - 1) % PAGES_PER_USER)
  }

  function UserUnrank(s: nat, j: nat): Label {
    if j == 0 then Root(s)
    else if j == 1 then Mid(s, 0)
    else if j < 6 then Low(s, 0, 8 + (j - 2))
    else Page(s, 0, 8 + (j - 6) / 512, (j - 6) % 512)
  }

  lemma RankOfUnrank(lay: Layout, k: nat)
    requires lay.Ok()
    ensures Rank(lay, Unrank(lay, k)) == k
  {
    var tables := KernelTables(lay);
    if k > tables {
      var i := k - tables - 1;
      UserRankOfUnrank(i / PAGES_PER_USER + 2, i % PAGES_PER_USER);
    }
  }

  lemma UserRankOfUnrank(s: nat, j: nat)
    ensures UserUnrank(s, j).s == s && UserRank(UserUnrank(s, j)) == j
  {
  }

  /** The first n labels by rank. */
  ghost function Ranked(lay: Layout, n: nat): set<Label>
    requires lay.Ok()
  {
    if n == 0 then {} else Ranked(lay, n - 1) + {Unrank(lay, n - 1)}
  }

  lemma {:induction false} RankedSize(lay: Layout, n: nat, keys: set<Label>)
    requires lay.Ok() && forall k: nat :: k < n ==> Unrank(lay, k) in keys
    ensures |Ranked(lay, n)| == n && Ranked(lay, n) <= keys
    ensures forall l :: l in Ranked(lay, n) ==> Rank(lay, l) < n
  {
    hide Rank, Unrank, KernelTables;
    if n > 0 {
      RankedSize(lay, n - 1, keys);
      RankOfUnrank(lay, n - 1);
    }
  }

  lemma Subset(a: set<Label>, b: set<Label>)
    requires a <= b
    ensures |a| <= |b|
  {
    assert b == a + (b - a);
  }

  /** Every label that can occur is in the book when no user page is unmapped. */
  lemma NothingMissing(m: Machine, k: nat)
    requires Inv(m) && (forall p :: 1 <= p <= m.users ==> Unmapped(m, p) == {})
    requires m.lay.Ok() && k < Limit(m.lay, m.users)
    ensures Unrank(m.lay, k) in m.ram.book
  {
    hide Inv, Unmapped, HeapOk, MemoryOk, Base;
    InvBase(m);
    BaseHeap(m);
    var tables := KernelTables(m.lay);
    if k < tables {
      KernelLabel(m.lay, m.ram, k);
    } else if k == tables {
      SlotRoot(m, 0);
    } else {
      var i := k - tables - 1;
      WhichUser(i, m.users);
      var p, j := i / PAGES_PER_USER + 1, i % PAGES_PER_USER;
      SlotRoot(m, p);
      UserLabelIn(m, p, j);
    }
  }

  lemma WhichUser(i: nat, users: nat)
    requires i < users * PAGES_PER_USER
    ensures i / PAGES_PER_USER < users
  {
  }

  lemma SlotRoot(m: Machine, i: nat)
    requires MemoryOk(m) && i <= m.users
    ensures Root(i + 1) in m.ram.book
  {
    assert RootOk(m, i);
  }

  lemma KernelLabel(lay: Layout, r: Ram, k: nat)
    requires HeapOk(lay, r) && lay.Ok() && k < KernelTables(lay)
    ensures Unrank(lay, k) in r.book
  {
    hide LeafOk;
    var i1 := if k < 2 then FIRST_LOW else FIRST_LOW + (k - 2);
    var f := KERNEL_VPN2 * 0x4_0000 + i1 * 512;
    KernelPageOf(lay, i1);
    assert KernelLow(f) in r.book;
    assert Parent(KernelLow(f)) in r.book;
  }

  lemma KernelPageOf(lay: Layout, i1: nat)
    requires lay.Ok() && FIRST_LOW <= i1 <= LastLow(lay)
    ensures var f := KERNEL_VPN2 * 0x4_0000 + i1 * 512;
      BASE_F <= f < lay.endF && KernelLow(f) == Low(0, KERNEL_VPN2, i1)
  {
  }

  lemma UserLabelIn(m: Machine, p: nat, j: nat)
    requires HeapOk(m.lay, m.ram) && Root(p + 1) in m.ram.book && Unmapped(m, p) == {} && j < PAGES_PER_USER
    ensures UserUnrank(p + 1, j) in m.ram.book
  {
    hide LeafOk, LeafEntry;
    var v := if j >= 6 then j - 6 else if j >= 2 then (j - 2) * 512 else 0;
    assert v !in Unmapped(m, p);
    PageLabelIs(p, v);
    HeapIsTree(m.lay, m.ram);
    assert Parent(PageLabel(p, v)) in m.ram.book;
    assert Parent(Parent(PageLabel(p, v))) in m.ram.book;
  }

  lemma PageLabelIs(p: nat, v: nat)
    requires v < USER_PAGES
    ensures PageLabel(p, v) == Page(p + 1, 0, 8 + v / 512, v % 512)
  {
    PageVpn(USER_BASE + v * PAGE_SIZE);
    assert (USER_BASE + v * PAGE_SIZE) / PAGE_SIZE == 0x1000 + v;
  }

  /** With fewer pages than the limit, some process always has an unmapped page. */
  lemma SomeoneLacks(m: Machine) returns (p: nat)
    requires Inv(m) && m.lay.Ok() && m.lay.endF - m.lay.freeF < Limit(m.lay, m.users)
    ensures 1 <= p <= m.users && Unmapped(m, p) != {}
  {
    hide Inv, Unmapped, Limit, Base, HeapOk, MemoryOk;
    if forall p :: 1 <= p <= m.users ==> Unmapped(m, p) == {} {
      var n := Limit(m.lay, m.users);
      forall k: nat | k < n ensures Unrank(m.lay, k) in m.ram.book.Keys {
        NothingMissing(m, k);
      }
      RankedSize(m.lay, n, m.ram.book.Keys);
      Subset(Ranked(m.lay, n), m.ram.book.Keys);
      InvBase(m);
      BaseHeap(m);
      BookFits(m.lay, m.ram);
    }
    p :| 1 <= p <= m.users && Unmapped(m, p) != {};
  }

  lemma BookFits(lay: Layout, r: Ram)
    requires HeapOk(lay, r) && Counted(lay, r)
    ensures |r.book.Keys| <= lay.endF - lay.freeF
  {
    HeapIsTree(lay, r);
  }

  // ---- a run that touches every page ----

  /** A call chain of a process that will go on at USER_BASE. */
  ghost predicate AtBase(call: Call) {
    call.Entry? || (call.Tick? && call.pc == USER_BASE)
  }

  /** All user processes are RUNNABLE and stay at the start of their programs. */
  ghost predicate Working(m: Machine) {
    && Inv(m) && m.power == On && |m.slots| == PROCS_MAX && m.users < PROCS_MAX
    && forall i :: 1 <= i <= m.users ==> WorkingSlot(m, i)
  }

  ghost predicate WorkingSlot(m: Machine, i: nat)
    requires i < |m.slots|
  {
    && m.slots[i].state == Runnable
    && if i == m.cur && m.at == UserCode then m.pc == USER_BASE else AtBase(m.slots[i].call)
  }

  /** Idle has no turn while everybody is RUNNABLE. */
  lemma WorkingIsUser(m: Machine)
    requires Working(m)
    ensures 1 <= m.cur <= m.users && m.at != IdleCode && Tidy(m) && MemoryOk(m) && WorkingSlot(m, m.cur)
  {
    InvCurrent(m);
    InvReady(m);
    InvUsers(m);
    hide Inv;
    assert WorkingSlot(m, 1);
  }

  lemma InvUsers(m: Machine)
    requires Inv(m)
    ensures 1 <= m.users
  {
  }

  /** What a step of such a run has to do. */
  ghost predicate Harmless(m: Machine, e: Event) {
    && Tidy(m) && MemoryOk(m) && m.cur <= m.users && Enabled(m, e) && !AtFault(m, e)
  }

  ghost const NO_REGS: Regs := seq(32, _ => 0)

  /** The kernel lets the current process run. */
  lemma EnterUser(m: Machine, e: Event)
    requires Working(m) && m.at == KernelCode && e == KernelContinues(m.clock, -1, NO_REGS)
    ensures Harmless(m, e)
    ensures var t := Next(m, e);
      Working(t) && t.at == UserCode && t.cur == m.cur && t.ram == m.ram && SameSystem(m, t)
  {
    hide Inv, AtFault, Resume, MemoryOk, Tidy;
    WorkingIsUser(m);
    var t := Next(m, e);
    ResumesAtBase(m);
    ResumePanics(m, m.clock, -1, NO_REGS);
    ResumeInv(m, m.clock, -1, NO_REGS);
    StepUsers(m, e);
    forall i | 1 <= i <= t.users ensures WorkingSlot(t, i) {
      assert WorkingSlot(m, i);
    }
    assert !AtFault(m, e) by { ContinuesBlameless(m, e); }
  }

  lemma ContinuesBlameless(m: Machine, e: Event)
    requires e.KernelContinues?
    ensures !AtFault(m, e)
  {
  }

  lemma ResumesAtBase(m: Machine)
    requires Working(m) && m.at == KernelCode
    ensures Tidy(m) && |NO_REGS| == 32
    ensures var t := Resume(m, m.clock, -1, NO_REGS);
      t.at == UserCode && t.pc == USER_BASE && t.cur == m.cur && t.ram == m.ram && t.slots == m.slots && t.power == On
  {
    WorkingIsUser(m);
    ChainStatus(m);
    hide Inv, RegsOf;
  }

  lemma ChainStatus(m: Machine)
    requires Inv(m) && m.at == KernelCode && m.cur > 0
    ensures Tidy(m) && (m.slots[m.cur].call.Tick? && m.slots[m.cur].state == Runnable ==> m.slots[m.cur].call.status == USER_STATUS)
  {
    assert Suspended(m, m.cur);
  }

  /** A tick takes the turn to another process, closer to q. */
  lemma TickOn(m: Machine, e: Event, q: nat)
    requires Working(m) && m.at == UserCode && e == TimerInterrupt(m.clock, true) && 1 <= q <= m.users && q != m.cur
    ensures Harmless(m, e)
    ensures var t := Next(m, e);
      && Working(t) && t.at == KernelCode && t.ram == m.ram && SameSystem(m, t)
      && t.cur < PROCS_MAX && m.cur < PROCS_MAX && q < PROCS_MAX && (t.cur == q || Ahead(t.cur, q) < Ahead(m.cur, q))
  {
    hide Inv, TimerTrap, MemoryOk, Tidy, Ahead;
    WorkingIsUser(m);
    assert WorkingSlot(m, q);
    TimerCloser(m, m.clock, q);
    TimerInv(m, m.clock);
    TickKeeps(m);
    StepUsers(m, e);
    var t := Next(m, e);
    forall i | 1 <= i <= t.users ensures WorkingSlot(t, i) {
      assert WorkingSlot(m, i);
      if i != m.cur { OtherSlots(m, e, i); }
    }
  }

  lemma TickKeeps(m: Machine)
    requires Working(m) && m.at == UserCode
    ensures Tidy(m)
    ensures var t := TimerTrap(m, m.clock, true);
      && t.ram == m.ram && t.power == On && t.at == KernelCode && |t.slots| == PROCS_MAX && m.cur < PROCS_MAX
      && t.slots[m.cur].state == Runnable && t.slots[m.cur].call == Tick(m.pc, USER_STATUS)
  {
    WorkingIsUser(m);
    InvCurrent(m);
    TrapEntryInKernel(m);
    hide Inv, Pick, FrameOf;
  }

  /** The current process touches a page that it has not been given: it gets one, or
      memory is exhausted. */
  lemma TouchPage(m: Machine, e: Event, v: nat)
    requires Working(m) && m.at == UserCode && v in Unmapped(m, m.cur)
    requires e == Instruction(LoadByte(USER_BASE + v * PAGE_SIZE, 0, USER_BASE))
    ensures Harmless(m, e)
    ensures var t := Next(m, e);
      t.power == Panicked || (Working(t) && t.ram.next > m.ram.next && SameSystem(m, t))
  {
    hide Inv, Base, OutcomeOf, UserStep, FaultTrap, MemoryOk, Tidy, Unmapped, Reach;
    WorkingIsUser(m);
    var va := MustFault(m, v, e.op);
    var access := OutcomeFaults(m, e.op);
    OutcomeIsStep(m, e.op);
    if Next(m, e).power != Panicked {
      FaultWorks(m, va, access);
      StepUsers(m, e);
    }
  }

  lemma MustFault(m: Machine, v: nat, op: Op) returns (va: Word)
    requires Working(m) && m.at == UserCode && v in Unmapped(m, m.cur)
    requires op == LoadByte(USER_BASE + v * PAGE_SIZE, 0, USER_BASE)
    ensures OutcomeOf(m, op) == PageFault(va) && InUserRange(va)
  {
    hide Inv, Base, HeapOk, MemoryOk, Tidy, Translate, UserLabel, Reach;
    WorkingIsUser(m);
    InvMode(m);
    InvBase(m);
    BaseHeap(m);
    va := USER_BASE + v * PAGE_SIZE;
    assert UserLabel(m.cur + 1, va) !in m.ram.book;
    ReachIsTranslate(m, va, Load);
    TranslateUser(m.lay, m.ram, m.cur + 1, va, Load);
    if Reach(m, m.pc, Fetch) == Fault { va := m.pc; }
  }

  lemma FaultWorks(m: Machine, va: Word, access: Access)
    requires Working(m) && m.at == UserCode && Reach(m, va, access) == Fault
    requires Tidy(m) && MemoryOk(m) && m.cur <= m.users && FaultTrap(m, va).power != Panicked
    ensures Working(FaultTrap(m, va)) && FaultTrap(m, va).ram.next > m.ram.next
  {
    hide Inv, Reach, FaultTrap, MemoryOk, Tidy, GivePage, Tree, HeapOk, Base, AlignDown;
    var t := FaultTrap(m, va);
    WorkingIsUser(m);
    FaultInv(m, va, access);
    FaultResumes(m, va);
    FaultUsers(m, va);
    FaultCases(m, va);
    FaultTakesPages(m, va);
    InvCurrent(t);
    InvCurrent(m);
    forall i | 1 <= i <= t.users ensures WorkingSlot(t, i) {
      assert WorkingSlot(m, i);
      if i != m.cur { FaultOthers(m, va, i); }
    }
  }

  lemma FaultTakesPages(m: Machine, va: Word)
    requires Inv(m) && m.at == UserCode && m.power == On && Tidy(m) && MemoryOk(m) && m.cur <= m.users
    requires FaultTrap(m, va).power != Panicked
    ensures FaultTrap(m, va).ram.next > m.ram.next
  {
    hide Inv, FaultTrap, MemoryOk, Tidy, GivePage, Tree, PathCost;
    FaultCases(m, va);
    AlignedInRange(va);
    GiveExact(m.lay, m.ram, m.cur + 1, AlignDown(va), []);
  }

  lemma AlignedInRange(va: Word)
    ensures AlignDown(va) % PAGE_SIZE == 0 && (InUserRange(va) ==> AlignDown(va) < 0x40_0000_0000)
  {
  }

  lemma OneMore(m: Machine, e: Event, events: seq<Event>, t: Machine)
    requires Harmless(m, e) && Runs(Next(m, e), events, t) && NobodyAtFault(Next(m, e), events)
    ensures Runs(m, [e] + events, t) && NobodyAtFault(m, [e] + events)
  {
    hide Next, Enabled, AtFault, Tidy, MemoryOk;
    assert ([e] + events)[1..] == events;
  }

  lemma LastOne(m: Machine, e: Event)
    requires Harmless(m, e)
    ensures Runs(m, [e], Next(m, e)) && NobodyAtFault(m, [e])
  {
    hide Enabled, AtFault, Tidy, MemoryOk;
    assert Runs(Next(m, e), [], Next(m, e));
    hide Next;
    OneMore(m, e, [], Next(m, e));
    assert [e] + [] == [e];
  }

  /** With fewer pages than the limit: from any such state there is a run, with nobody
      at fault, that ends in a PANIC. It touches the pages of one process after the
      other. */
  lemma {:induction false} Exhaust(m: Machine, q: nat) returns (events: seq<Event>, t: Machine)
    requires Working(m) && m.lay.Ok() && m.lay.endF - m.lay.freeF < Limit(m.lay, m.users)
    requires 1 <= q <= m.users && Unmapped(m, q) != {}
    ensures Runs(m, events, t) && NobodyAtFault(m, events) && t.power == Panicked
    decreases m.lay.endF as int - m.ram.next, if m.cur == q then 0 else Ahead(m.cur, q) + 1, if m.at == KernelCode then 1 else 0
  {
    hide Inv, Working, Enabled, AtFault, Tidy, MemoryOk, Next, Runs, NobodyAtFault, Limit, Ahead, Unmapped;
    WorkingUsers(m);
    if m.at == KernelCode {
      var e := KernelContinues(m.clock, -1, NO_REGS);
      EnterUser(m, e);
      SameUnmapped(m, Next(m, e), q);
      events, t := Exhaust(Next(m, e), q);
      OneMore(m, e, events, t);
      events := [e] + events;
    } else if m.cur != q {
      var e := TimerInterrupt(m.clock, true);
      TickOn(m, e, q);
      SameUnmapped(m, Next(m, e), q);
      events, t := Exhaust(Next(m, e), q);
      OneMore(m, e, events, t);
      events := [e] + events;
    } else {
      var v :| v in Unmapped(m, q);
      PageInRange(m, q, v);
      var e := Instruction(LoadByte(USER_BASE + v * PAGE_SIZE, 0, USER_BASE));
      TouchPage(m, e, v);
      LastOne(m, e);
      events, t := [e], Next(m, e);
      if t.power != Panicked {
        WorkingUsers(t);
        var next := SomeoneLacks(t);
        events, t := Exhaust(Next(m, e), next);
        OneMore(m, e, events, t);
        events := [e] + events;
      }
    }
  }

  lemma PageInRange(m: Machine, q: nat, v: nat)
    requires v in Unmapped(m, q)
    ensures v < USER_PAGES
  {
  }

  lemma WorkingUsers(m: Machine)
    requires Working(m)
    ensures 1 <= m.cur <= m.users < PROCS_MAX && m.at != IdleCode && Inv(m) && m.ram.next <= m.lay.endF
    ensures Tidy(m) && MemoryOk(m)
  {
    hide Tree;
    WorkingIsUser(m);
    BaseHeap(m);
    HeapIsTree(m.lay, m.ram);
  }

  // ---- the limit ----

  /** Everybody has just been created. */
  lemma StartWorks(lay: Layout, ram: Ram, programs: seq<Program>, ticksPerMs: nat, hart: Machine)
    requires Fresh(lay, ram) && AllFit(programs) && |programs| >= 1 && ValidRegs(hart.regs)
    requires Start(lay, ram, programs, ticksPerMs, true, hart).Done?
    ensures var t := Start(lay, ram, programs, ticksPerMs, true, hart).value;
      Working(t) && t.lay == lay && t.users == |programs|
  {
    hide CreateIdle, CreateAll, Fresh, Inv, Created, Pick;
    StartInv(lay, ram, programs, ticksPerMs, true, hart);
    StartUsers(lay, ram, programs, ticksPerMs, hart);
    var k0 := CreateIdle(lay, ram).value;
    IdleCreated(lay, ram);
    var k := CreateAll(lay, k0, 0, programs).value;
    AllCreatedInTurn(lay, k0, 0, programs);
    CreatedTidy(lay, k, |programs|);
    CreatedCalls(lay, k, |programs|);
  }

  lemma CreatedCalls(lay: Layout, k: Tables, n: nat)
    requires Created(lay, k, n)
    ensures n < PROCS_MAX == |k.slots| && forall i :: 1 <= i <= n ==> k.slots[i].state == Runnable && k.slots[i].call == Entry
  {
    hide HeapOk, Counted, AllInUse, Fresh;
    forall i | 1 <= i <= n ensures k.slots[i].state == Runnable && k.slots[i].call == Entry {
      assert SlotCreated(k, n, i);
    }
  }

  /** No run in which nobody is at fault ends in a PANIC. */
  ghost predicate NeverPanics(m: Machine) {
    forall events, t :: Runs(m, events, t) && NobodyAtFault(m, events) ==> t.power != Panicked
  }

  /** The limit is exact: the system boots and no run of it ever panics for want of
      memory if and only if the free pages reach the limit. */
  lemma LimitIsExact(lay: Layout, ram: Ram, programs: seq<Program>, ticksPerMs: nat, hart: Machine)
    requires Fresh(lay, ram) && AllFit(programs) && 1 <= |programs| < PROCS_MAX && ValidRegs(hart.regs)
    ensures lay.Ok()
    ensures var start := Start(lay, ram, programs, ticksPerMs, true, hart);
      (start.Done? && NeverPanics(start.value)) <==> lay.endF - lay.freeF >= Limit(lay, |programs|)
  {
    FreshIsOk(lay, ram);
    hide Start, Inv, Fresh, Runs, NobodyAtFault, Limit, Working, Unmapped;
    var start := Start(lay, ram, programs, ticksPerMs, true, hart);
    if lay.endF - lay.freeF >= Limit(lay, |programs|) {
      StartSucceeds(lay, ram, programs, ticksPerMs, hart);
      forall events, t | Runs(start.value, events, t) && NobodyAtFault(start.value, events) ensures t.power != Panicked {
        SystemNeverPanics(lay, ram, programs, ticksPerMs, hart, events, t);
      }
    } else if start.Done? {
      StartWorks(lay, ram, programs, ticksPerMs, hart);
      WorkingUsers(start.value);
      var q := SomeoneLacks(start.value);
      var events, t := Exhaust(start.value, q);
    }
  }

  lemma FreshIsOk(lay: Layout, ram: Ram)
    requires Fresh(lay, ram)
    ensures lay.Ok()
  {
  }

  /** The whole life of the system, with pages for the limit: it boots, and however it
      is interleaved there is no PANIC until somebody is at fault, the invariant holds,
      and the pages handed out stay within the limit. */
  lemma SystemNeverPanics(lay: Layout, ram: Ram, programs: seq<Program>, ticksPerMs: nat, hart: Machine, events: seq<Event>, t: Machine)
    requires Fresh(lay, ram) && AllFit(programs) && 1 <= |programs| < PROCS_MAX && ValidRegs(hart.regs)
    requires lay.endF - lay.freeF >= Limit(lay, |programs|)
    ensures var start := Start(lay, ram, programs, ticksPerMs, true, hart);
      start.Done? && (Runs(start.value, events, t) && NobodyAtFault(start.value, events) ==> LivesOn(t))
  {
    FreshIsOk(lay, ram);
    hide Start, Inv, Limit, Fresh;
    StartSucceeds(lay, ram, programs, ticksPerMs, hart);
    StartInv(lay, ram, programs, ticksPerMs, true, hart);
    StartUsers(lay, ram, programs, ticksPerMs, hart);
    var start := Start(lay, ram, programs, ticksPerMs, true, hart).value;
    if Runs(start, events, t) && NobodyAtFault(start, events) {
      NoPanic(start, events, t);
    }
  }

  ghost predicate LivesOn(m: Machine) {
    m.power != Panicked && Inv(m) && m.lay.Ok() && m.ram.next - m.lay.freeF <= Limit(m.lay, m.users)
  }
}
