/** Demand paging over whole runs: every page fault of a user program inside its
    8 MB makes progress, there are at most 2048 of them in a process's life, and
    the kernel panics only for reasons that are not its own. */
module Faults {
  import opened Words
  import opened Sv39
  import opened Pte
  import opened PhysMemory
  import opened PageTables
  import opened Heap
  import opened UserPages
  import opened FlatView
  import opened Budget
  import opened TrapFrame
  import opened Scheduler
  import opened Machine
  import opened Invariant
  import opened Refinement
  import opened Scheduling

  const USER_PAGES: nat := USER_SIZE / PAGE_SIZE

  /** The v-th page of the user range of process p. */
  function PageLabel(p: nat, v: nat): Label { UserLabel(p + 1, USER_BASE + v * PAGE_SIZE) }

  lemma PageLabels(p: nat, v: nat, va: nat)
    requires v < USER_PAGES && InUserRange(va)
    ensures PageLabel(p, v) == UserLabel(p + 1, va) <==> v == (va - USER_BASE) / PAGE_SIZE
    ensures (va - USER_BASE) / PAGE_SIZE < USER_PAGES
  {
    PageVpn(va);
    PageVpn(USER_BASE + v * PAGE_SIZE);
    hide Vpn;
    PageNumbers(v, va);
    SameIndices(USER_BASE / PAGE_SIZE + v, va / PAGE_SIZE);
  }

  lemma PageNumbers(v: nat, va: nat)
    requires v < USER_PAGES && InUserRange(va)
    ensures (USER_BASE + v * PAGE_SIZE) / PAGE_SIZE == USER_BASE / PAGE_SIZE + v
    ensures va / PAGE_SIZE == USER_BASE / PAGE_SIZE + (va - USER_BASE) / PAGE_SIZE
    ensures (va - USER_BASE) / PAGE_SIZE < USER_PAGES
  {
  }

  lemma SameIndices(n: nat, k: nat)
    requires n < 512 * 512 && k < 512 * 512
    ensures n == k <==> n % 512 == k % 512 && n / 512 % 512 == k / 512 % 512
  {
  }

  /** The pages of the user range that process p has not been given yet. */
  ghost function Unmapped(m: Machine, p: nat): set<nat> {
    set v: nat | v < USER_PAGES && PageLabel(p, v) !in m.ram.book
  }

  // ---- one page fault ----

  /** Outside the user range a fault is fatal; inside it is the allocator that
      decides. */
  lemma FaultCases(m: Machine, va: Word)
    requires Inv(m) && m.at == UserCode && Tidy(m) && MemoryOk(m) && m.cur <= m.users && m.power == On
    ensures !InUserRange(va) ==> FaultTrap(m, va).power == Panicked
    ensures Tree(m.lay, m.ram) && Root(m.cur + 1) in m.ram.book && (InUserRange(va) ==> Vpn(AlignDown(va), 2) != KERNEL_VPN2)
    ensures InUserRange(va) ==>
      match GivePage(m.lay, m.ram, m.cur + 1, m.ram.book[Root(m.cur + 1)], AlignDown(va), [])
      case Panic => FaultTrap(m, va).power == Panicked
      case Done(ram) => FaultTrap(m, va).power == On && FaultTrap(m, va).ram == ram
  {
    BaseHeap(m);
    HeapIsTree(m.lay, m.ram);
    if InUserRange(va) { FaultReady(m, va); }
    InvMode(m);
    hide Inv, GivePage, HeapOk, Tree, FrameOf, RegsOf, MemoryOk;
  }

  lemma InvMode(m: Machine)
    requires Inv(m) && m.at == UserCode
    ensures m.mode == User && 1 <= m.cur <= m.users
  {
  }

  /** The fault adds the page's label to the book, and no other page. */
  lemma FaultBook(m: Machine, va: Word, access: Access)
    requires Inv(m) && m.at == UserCode && m.power == On && Reach(m, va, access) == Fault
    requires Tidy(m) && MemoryOk(m) && m.cur <= m.users && FaultTrap(m, va).power != Panicked
    ensures InUserRange(va)
    ensures UserLabel(m.cur + 1, va) !in m.ram.book && UserLabel(m.cur + 1, va) in FaultTrap(m, va).ram.book
    ensures forall x: Label :: x.Page? && x != UserLabel(m.cur + 1, va) ==> (x in FaultTrap(m, va).ram.book <==> x in m.ram.book)
  {
    BaseHeap(m);
    InvMode(m);
    FaultCases(m, va);
    hide Inv, Reach, FaultTrap, GivePage, HeapOk, Tidy, MemoryOk, Tree, Given;
    FaultIsVacant(m, va, access);
    var ram, s := FaultTrap(m, va).ram, m.cur + 1;
    var r2, r3 := GiveSteps(m.lay, m.ram, s, AlignDown(va), []);
    GiveExtendsBook(m.lay, m.ram, r2, r3, ram, s, AlignDown(va), []);
  }

  lemma FaultUnmapped(m: Machine, va: Word, access: Access, p: nat)
    requires Inv(m) && m.at == UserCode && m.power == On && Reach(m, va, access) == Fault
    requires Tidy(m) && MemoryOk(m) && m.cur <= m.users && FaultTrap(m, va).power != Panicked
    ensures InUserRange(va)
    ensures p == m.cur ==> (va - USER_BASE) / PAGE_SIZE in Unmapped(m, p)
    ensures Unmapped(FaultTrap(m, va), p) ==
      if p == m.cur then Unmapped(m, p) - {(va - USER_BASE) / PAGE_SIZE} else Unmapped(m, p)
  {
    FaultBook(m, va, access);
    hide Inv, Reach, FaultTrap, Tidy, MemoryOk, UserLabel;
    NewPage(m, FaultTrap(m, va), va, p);
  }

  lemma NewPage(m: Machine, t: Machine, va: Word, p: nat)
    requires InUserRange(va) && UserLabel(m.cur + 1, va) !in m.ram.book && UserLabel(m.cur + 1, va) in t.ram.book
    requires forall x: Label :: x.Page? && x != UserLabel(m.cur + 1, va) ==> (x in t.ram.book <==> x in m.ram.book)
    ensures p == m.cur ==> (va - USER_BASE) / PAGE_SIZE in Unmapped(m, p)
    ensures Unmapped(t, p) == if p == m.cur then Unmapped(m, p) - {(va - USER_BASE) / PAGE_SIZE} else Unmapped(m, p)
  {
    hide UserLabel, PageLabel;
    var n := (va - USER_BASE) / PAGE_SIZE;
    PageLabels(m.cur, 0, va);
    PageLabels(m.cur, n, va);
    forall v: nat | v < USER_PAGES ensures v in Unmapped(t, p) <==> v in Unmapped(m, p) && (p != m.cur || v != n) {
      PageLabels(m.cur, v, va);
      PageSpace(p, v, va);
      PageSpace(m.cur, v, va);
    }
  }

  lemma PageSpace(p: nat, v: nat, va: nat)
    ensures PageLabel(p, v).Page? && PageLabel(p, v).s == p + 1 && UserLabel(p + 1, va).s == p + 1
  {
  }

  /** Progress: after the fault has been served, every access to that page
      succeeds, through the cache too, and execution resumes at the same pc. */
  lemma FaultMakesProgress(m: Machine, va: Word, access: Access, a: Word, retry: Access)
    requires Inv(m) && m.at == UserCode && m.power == On && Reach(m, va, access) == Fault
    requires Tidy(m) && MemoryOk(m) && m.cur <= m.users && FaultTrap(m, va).power != Panicked
    requires a / PAGE_SIZE == va / PAGE_SIZE
    ensures Reach(FaultTrap(m, va), a, retry) == At(m.ram.next * PAGE_SIZE + a % PAGE_SIZE)
    ensures FaultTrap(m, va).at == UserCode && FaultTrap(m, va).cur == m.cur
    ensures FaultTrap(m, va).pc == m.pc && FaultTrap(m, va).regs == m.regs
  {
    hide Inv, Base, Reach, FaultTrap, GivePage, HeapOk, Tidy, MemoryOk, Tree, Translate, TrapEntry, AlignDown, CanGive;
    InvMode(m);
    InvBase(m);
    FaultCases(m, va);
    FaultInv(m, va, access);
    FaultResumes(m, va);
    FaultCanGive(m, va, access);
    BaseHeap(m);
    var t := FaultTrap(m, va);
    InvBase(t);
    BaseHeap(t);
    SamePageDown(va, a);
    FaultOnPage(m, va, access, a, retry);
    GiveMakesProgress(m.lay, m.ram, m.cur + 1, AlignDown(va), [], a, retry);
    ReachIsTranslate(t, a, retry);
  }

  lemma FaultCanGive(m: Machine, va: Word, access: Access)
    requires Inv(m) && m.at == UserCode && m.power == On && Reach(m, va, access) == Fault
    requires Tidy(m) && MemoryOk(m) && m.cur <= m.users && FaultTrap(m, va).power != Panicked
    ensures CanGive(m.lay, m.ram, m.cur + 1, AlignDown(va), [])
  {
    hide Inv, Base, Reach, FaultTrap, GivePage, HeapOk, Tidy, MemoryOk, Tree, AlignDown;
    InvMode(m);
    InvBase(m);
    BaseHeap(m);
    FaultCases(m, va);
    FaultIsVacant(m, va, access);
  }

  /** If one access to a page faults, all accesses to it do. */
  lemma FaultOnPage(m: Machine, va: Word, access: Access, a: Word, other: Access)
    requires Inv(m) && m.at == UserCode && Reach(m, va, access) == Fault && a / PAGE_SIZE == va / PAGE_SIZE
    ensures Root(m.cur + 1) in m.ram.book && Translate(m.ram.mem, m.ram.book[Root(m.cur + 1)], a, other, User) == Fault
  {
    hide Inv, Base, Reach, HeapOk, Tidy, MemoryOk, Translate, UserLabel;
    InvMode(m);
    InvBase(m);
    BaseHeap(m);
    ReachIsTranslate(m, va, access);
    TranslateUser(m.lay, m.ram, m.cur + 1, va, access);
    TranslateUser(m.lay, m.ram, m.cur + 1, a, other);
    SamePageLabel(m.cur + 1, va, a);
  }

  lemma InvBase(m: Machine)
    requires Inv(m)
    ensures Base(m)
  {
  }

  lemma SamePageDown(va: Word, a: Word)
    requires a / PAGE_SIZE == va / PAGE_SIZE
    ensures a / PAGE_SIZE == AlignDown(va) / PAGE_SIZE
  {
  }

  lemma FaultResumes(m: Machine, va: Word)
    requires Inv(m) && m.at == UserCode && Tidy(m) && MemoryOk(m) && m.cur <= m.users && FaultTrap(m, va).power != Panicked
    ensures FaultTrap(m, va).at == UserCode && FaultTrap(m, va).cur == m.cur && FaultTrap(m, va).lay == m.lay
    ensures FaultTrap(m, va).pc == m.pc && FaultTrap(m, va).regs == m.regs && FaultTrap(m, va).mode == User
  {
    InvMode(m);
    InvCurrent(m);
    EntryRestores(m);
    hide Inv, GivePage, HeapOk, FrameOf, RegsOf, MemoryOk, AlignDown;
  }

  lemma EntryRestores(m: Machine)
    requires Inv(m)
    ensures Tidy(m) && m.sscratch == m.cur && RegsOf(TrapEntry(m).slots[m.cur].frame) == m.regs
  {
    hide HeapOk, Counted, AllInUse, Walk, Control;
    RestoreUndoesSave(m.regs, m.slots[m.cur].frame[31]);
  }

  // ---- all page faults of a run ----

  /** How many page faults process p takes in a run. */
  ghost function FaultCount(m: Machine, events: seq<Event>, p: nat): nat
    decreases |events|
  {
    if |events| == 0 || !(Tidy(m) && MemoryOk(m) && m.cur <= m.users && Enabled(m, events[0])) then 0
    else (if TakesFault(m, events[0], p) then 1 else 0) + FaultCount(Next(m, events[0]), events[1..], p)
  }

  predicate TakesFault(m: Machine, e: Event, p: nat) {
    p == m.cur && e.Instruction? && OutcomeOf(m, e.op).PageFault?
  }

  lemma OutcomeFaults(m: Machine, op: Op) returns (access: Access)
    requires OutcomeOf(m, op).PageFault?
    ensures Reach(m, OutcomeOf(m, op).va, access) == Fault
  {
    hide Reach;
    if Reach(m, m.pc, Fetch) == Fault { access := Fetch; }
    else if op.LoadByte? { access := Load; }
    else { access := Store; }
  }

  /** Steps that are no page fault hand out no page. */
  lemma BookStays(m: Machine, e: Event)
    requires Inv(m) && Tidy(m) && MemoryOk(m) && m.cur <= m.users && Enabled(m, e)
    requires e.Instruction? ==> !OutcomeOf(m, e.op).PageFault?
    requires Next(m, e).power != Panicked
    ensures Next(m, e).ram.book == m.ram.book
  {
    hide Inv, MemoryOk, Tidy, UserStep, OutcomeOf, EcallTrap, TimerTrap, Resume, Walk, Reach, FaultTrap;
    match e
    case Instruction(op) =>
      OutcomeIsStep(m, op);
      if OutcomeOf(m, op).Calls? { EcallKeepsRam(m, op.now); } else if OutcomeOf(m, op).Completes? { CompletedBook(m, op); }
    case TimerInterrupt(now, armed) => if armed { TimerKeepsRam(m, now); } else { Unarmed(m, now); }
    case KernelContinues(now, ch, junk) => ResumeKeepsRam(m, now, ch, junk);
    case KernelAccess(a, access) => KernelNeverFaults(m, a, access);
    case _ =>
  }

  lemma CompletedBook(m: Machine, op: Op)
    requires Tidy(m) && MemoryOk(m) && m.cur <= m.users && OutcomeOf(m, op).Completes? && (op.LoadByte? ==> op.rd < 32)
    ensures UserStep(m, op).ram.book == m.ram.book
  {
    hide MemoryOk, Tidy, Reach, FaultTrap, EcallTrap, RamByte, PhysMemory.StoreByte;
  }

  lemma StepUnmapped(m: Machine, e: Event, p: nat)
    requires Inv(m) && Tidy(m) && MemoryOk(m) && m.cur <= m.users && Enabled(m, e)
    requires Next(m, e).power != Panicked
    ensures |Unmapped(Next(m, e), p)| + (if TakesFault(m, e, p) then 1 else 0) == |Unmapped(m, p)|
  {
    hide Inv, MemoryOk, Tidy, UserStep, OutcomeOf, EcallTrap, TimerTrap, Resume, Walk, FaultTrap, Unmapped;
    if e.Instruction? && OutcomeOf(m, e.op).PageFault? {
      OutcomeIsStep(m, e.op);
      var access := OutcomeFaults(m, e.op);
      FaultUnmapped(m, OutcomeOf(m, e.op).va, access, p);
    } else {
      BookStays(m, e);
      SameUnmapped(m, Next(m, e), p);
    }
  }

  lemma SameUnmapped(m: Machine, t: Machine, p: nat)
    requires t.ram.book == m.ram.book
    ensures Unmapped(t, p) == Unmapped(m, p)
  {
  }

  /** Conservation: pages still unmapped at the end, plus page faults taken, are the
      pages unmapped at the start. */
  lemma {:induction false} FaultsUsePages(m: Machine, events: seq<Event>, t: Machine, p: nat)
    requires Inv(m) && Runs(m, events, t) && t.power != Panicked
    ensures |Unmapped(t, p)| + FaultCount(m, events, p) == |Unmapped(m, p)|
    decreases |events|
  {
    InvReady(m);
    hide Inv, Enabled, Next, Tidy, MemoryOk, Unmapped, TakesFault;
    if |events| > 0 {
      var n := Next(m, events[0]);
      if n.power == Panicked {
        PanicIsFinal(n, events[1..], t);
      } else {
        StepInv(m, events[0]);
        StepUnmapped(m, events[0], p);
        FaultsUsePages(n, events[1..], t, p);
      }
    }
  }

  lemma {:induction false} PagesBelow(n: nat, pages: set<nat>)
    requires forall v :: v in pages ==> v < n
    ensures |pages| <= n
  {
    if n == 0 {
      assert pages == {};
    } else {
      PagesBelow(n - 1, pages - {n - 1});
    }
  }

  /** At most 2048 page faults in a process's life, however long the run. */
  lemma FaultsAreBounded(m: Machine, events: seq<Event>, t: Machine, p: nat)
    requires Inv(m) && Runs(m, events, t) && t.power != Panicked
    ensures FaultCount(m, events, p) <= 2048
  {
    FaultsUsePages(m, events, t, p);
    PagesBelow(USER_PAGES, Unmapped(m, p));
  }

  // ---- when the kernel panics ----

  /** Enough free pages for the processes that there are. */
  ghost predicate Enough(m: Machine) {
    m.lay.Ok() && m.lay.endF - m.lay.freeF >= Limit(m.lay, m.users)
  }

  /** The reasons for a PANIC that are not the kernel's own: an access outside the
      user range, an exception or a system call that does not exist, and firmware
      that does not set the timer. */
  ghost predicate AtFault(m: Machine, e: Event) {
    match e
    case Instruction(op) =>
      (match OutcomeOf(m, op)
       case Completes => false
       case PageFault(va) => va < 0x100_0000 || va >= 0x180_0000
       case Calls => |m.regs| == 32 && (m.regs[A3] < 1 || m.regs[A3] > 5)
       case OtherException => true)
    case TimerInterrupt(_, armed) => !armed
    case _ => false
  }

  /** With enough pages the kernel panics exactly then: it never runs out of memory,
      never faults itself and never schedules an exited process. */
  lemma PanicExactly(m: Machine, e: Event)
    requires Inv(m) && Tidy(m) && MemoryOk(m) && m.cur <= m.users && Enabled(m, e) && Enough(m)
    ensures Next(m, e).power == Panicked <==> AtFault(m, e)
  {
    hide Inv, MemoryOk, Tidy, UserStep, OutcomeOf, EcallTrap, TimerTrap, Resume, Walk, FaultTrap, Reach;
    match e
    case Instruction(op) =>
      OutcomeIsStep(m, op);
      match OutcomeOf(m, op) {
        case PageFault(va) => var access := OutcomeFaults(m, op); FaultNeedsNoLuck(m, va, access);
        case Calls => EcallPanics(m, op.now);
        case Completes => CompletedPower(m, op);
        case OtherException =>
      }
    case TimerInterrupt(now, armed) => TimerPanics(m, now, armed);
    case KernelContinues(now, ch, junk) => ResumePanics(m, now, ch, junk);
    case KernelAccess(a, access) => KernelNeverFaults(m, a, access);
    case _ => IdlePanics(m);
  }

  lemma CompletedPower(m: Machine, op: Op)
    requires Tidy(m) && MemoryOk(m) && m.cur <= m.users && OutcomeOf(m, op).Completes? && (op.LoadByte? ==> op.rd < 32)
    ensures UserStep(m, op).power == m.power
  {
    hide MemoryOk, Tidy, Reach, FaultTrap, EcallTrap, RamByte, PhysMemory.StoreByte;
  }

  lemma FaultNeedsNoLuck(m: Machine, va: Word, access: Access)
    requires Inv(m) && m.at == UserCode && m.power == On && Reach(m, va, access) == Fault && Enough(m)
    requires Tidy(m) && MemoryOk(m) && m.cur <= m.users
    ensures FaultTrap(m, va).power == Panicked <==> !InUserRange(va)
  {
    BaseHeap(m);
    InvMode(m);
    FaultCases(m, va);
    hide Inv, Reach, FaultTrap, GivePage, HeapOk, Tidy, MemoryOk, Tree;
    if InUserRange(va) {
      FaultIsVacant(m, va, access);
      GiveSucceeds(m.lay, m.ram, m.cur + 1, AlignDown(va), [], m.users);
    }
  }

  lemma EcallPanics(m: Machine, now: nat)
    requires Inv(m) && m.at == UserCode && m.power == On
    ensures Tidy(m) && |m.regs| == 32
    ensures EcallTrap(m, now).power == Panicked <==>
      m.regs[A3] !in {SYS_PUTCHAR, SYS_GETCHAR, SYS_SLEEP, SYS_GETPID, SYS_EXIT}
  {
    InvReady(m);
    EntryA3(m);
    hide Inv, Pick, FrameOf, RegsOf;
  }

  lemma EntryA3(m: Machine)
    requires Inv(m)
    ensures Tidy(m) && TrapEntry(m).slots[m.cur].frame[FRAME_A3] == m.regs[A3]
  {
  }

  lemma TimerPanics(m: Machine, now: nat, armed: bool)
    requires Tidy(m) && m.power == On
    ensures TimerTrap(m, now, armed).power == Panicked <==> !armed
  {
    hide Pick, FrameOf, RegsOf;
  }

  lemma ResumePanics(m: Machine, now: nat, ch: int, junk: Regs)
    requires Inv(m) && m.at == KernelCode && m.power == On && |junk| == 32 && ch < WORD_LIMIT
    ensures Tidy(m) && Resume(m, now, ch, junk).power == On
  {
    NotDead(m);
    InvReady(m);
    hide Inv, Pick, RegsOf;
  }

  lemma NotDead(m: Machine)
    requires Inv(m) && m.at == KernelCode
    ensures m.cur < |m.slots| && !m.slots[m.cur].call.Dead?
  {
    assert Suspended(m, m.cur);
  }

  lemma IdlePanics(m: Machine)
    requires Tidy(m) && m.power == On
    ensures IdleStep(m).power != Panicked
  {
  }

  /** Over whole runs: as long as nobody is at fault, there is no PANIC. */
  ghost predicate NobodyAtFault(m: Machine, events: seq<Event>)
    decreases |events|
  {
    |events| > 0 && Tidy(m) && MemoryOk(m) && m.cur <= m.users && Enabled(m, events[0]) ==>
      !AtFault(m, events[0]) && NobodyAtFault(Next(m, events[0]), events[1..])
  }

  lemma {:induction false} NoPanic(m: Machine, events: seq<Event>, t: Machine)
    requires Inv(m) && m.power != Panicked && Runs(m, events, t) && Enough(m) && NobodyAtFault(m, events)
    ensures t.power != Panicked && Inv(t) && t.lay.Ok() && t.ram.next - t.lay.freeF <= Limit(t.lay, t.users)
    decreases |events|
  {
    InvReady(m);
    hide Inv, Enabled, Next, Tidy, MemoryOk, AtFault;
    if |events| > 0 {
      PanicExactly(m, events[0]);
      StepInv(m, events[0]);
      StepUsers(m, events[0]);
      NoPanic(Next(m, events[0]), events[1..], t);
    } else {
      BudgetHolds(m);
    }
  }

  /** In every reachable state the pages handed out are within the limit. */
  lemma BudgetHolds(m: Machine)
    requires Inv(m)
    ensures m.lay.Ok() && m.ram.next - m.lay.freeF <= Limit(m.lay, m.users)
  {
    BaseHeap(m);
    HeapIsTree(m.lay, m.ram);
    hide Inv;
    PagesWithinLimit(m.lay, m.ram, m.users);
  }

  // ---- what holds of addresses in every reachable state ----

  /** Isolation in every reachable state: what user code reaches is memory that no
      other page of any process shares, and that is no table and no kernel memory. */
  lemma UsersAreIsolated(m: Machine, p: nat, va: nat, q: nat, vb: nat)
    requires Inv(m) && p <= m.users && q <= m.users
    requires Root(p + 1) in m.ram.book && Root(q + 1) in m.ram.book && UserFrame(m.ram, p + 1, va).At?
    ensures m.lay.freeF <= UserFrame(m.ram, p + 1, va).pa < m.ram.next
    ensures UserFrame(m.ram, p + 1, va) == UserFrame(m.ram, q + 1, vb) ==> p == q && va / PAGE_SIZE == vb / PAGE_SIZE
    ensures forall l :: l in m.ram.book && !l.Page? ==> m.ram.book[l] != UserFrame(m.ram, p + 1, va).pa
  {
    BaseHeap(m);
    hide Inv, HeapOk, UserFrame;
    Isolation(m.lay, m.ram, p + 1, va, q + 1, vb);
  }

  /** Ownership of the shared registers in every reachable state, and the frame
      that a trap will overwrite is not in use: the process it belongs to is the
      one that runs. */
  lemma SharedRegisters(m: Machine)
    requires Inv(m)
    ensures Tidy(m) && m.satp == m.slots[m.cur].root && m.sscratch == m.cur
    ensures m.at == UserCode ==> m.cur > 0 && m.mode == User
    ensures m.at == IdleCode ==> m.cur == 0 && m.mode == Super
    ensures m.at == KernelCode ==> m.mode == Super && !m.sstatus.sie
    ensures forall p :: 1 <= p <= m.users && p != m.cur ==> UserCall(m.slots[p])
  {
    hide HeapOk, Counted, AllInUse, Walk;
    forall p | 1 <= p <= m.users && p != m.cur ensures UserCall(m.slots[p]) {
      assert Suspended(m, p);
    }
  }
}
