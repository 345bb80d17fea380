/** The whole of kernel_main: memory suffices, every process is born with its own
    image and argument, and the first yield starts a machine in order. */
module Startup {
  import opened Words
  import opened Sv39
  import opened Pte
  import opened PhysMemory
  import opened PageTables
  import opened Heap
  import opened UserPages
  import opened FlatView
  import opened AddressSpaces
  import opened Budget
  import opened TrapFrame
  import opened Scheduler
  import opened Machine
  import opened Invariant
  import opened PrivateMachines
  import opened Boot
  import opened Refinement
  import opened Faults

  /** What a user process is created from. */
  datatype Program = Program(image: seq<Byte>, arg: Word)

  /** user.ld asserts that an image fits the user range. */
  predicate AllFit(programs: seq<Program>) {
    forall i :: 0 <= i < |programs| ==> |programs[i].image| <= USER_SIZE
  }

  function CreateNext(lay: Layout, k: Tables, n: nat, program: Program): (res: Result<Tables>)
    requires Created(lay, k, n) && |program.image| <= USER_SIZE
    ensures res.Done? ==> Created(lay, res.value, n + 1)
  {
    hide CanCreate, CreateProcess, Created;
    LoadIsReady(lay, k, n, program.image);
    var k1 :- CreateProcess(lay, k, program.image, program.arg);
    ProcessCreated(lay, k, n, program.image, program.arg);
    Done(k1)
  }

  /** One call of create_process2 for each program. */
  function CreateAll(lay: Layout, k: Tables, n: nat, programs: seq<Program>): Result<Tables>
    requires Created(lay, k, n) && AllFit(programs)
    decreases |programs|
  {
    hide CreateNext, Created;
    if |programs| == 0 then Done(k)
    else
      var k1 :- CreateNext(lay, k, n, programs[0]);
      CreateAll(lay, k1, n + 1, programs[1..])
  }

  lemma {:induction false} AllCreatedInTurn(lay: Layout, k: Tables, n: nat, programs: seq<Program>)
    requires Created(lay, k, n) && AllFit(programs) && CreateAll(lay, k, n, programs).Done?
    ensures Created(lay, CreateAll(lay, k, n, programs).value, n + |programs|)
    decreases |programs|
  {
    hide CreateNext, Created;
    if |programs| > 0 {
      AllCreatedInTurn(lay, CreateNext(lay, k, n, programs[0]).value, n + 1, programs[1..]);
    }
  }

  /** kernel_main up to the switch in the first yield. The firmware leaves behind
      `hart`: registers and CSRs hold anything. */
  function Start(lay: Layout, ram: Ram, programs: seq<Program>, ticksPerMs: nat, armed: bool, hart: Machine): Result<Machine>
    requires Fresh(lay, ram) && AllFit(programs) && |hart.regs| == 32
  {
    hide CreateIdle, CreateAll, Fresh;
    var k0 :- CreateIdle(lay, ram);
    IdleCreated(lay, ram);
    if !armed then Panic
    else
      var k :- CreateAll(lay, k0, 0, programs);
      AllCreatedInTurn(lay, k0, 0, programs);
      CreatedTidy(lay, k, |programs|);
      Done(Yield(BootMachine(lay, k, |programs|, ticksPerMs, hart), Call.Boot))
  }

  /** The boot context is the idle process. Interrupts are off; satp and sscratch
      are not installed yet. */
  function BootMachine(lay: Layout, k: Tables, n: nat, ticksPerMs: nat, hart: Machine): Machine {
    hart.(lay := lay, users := n, ticksPerMs := ticksPerMs, ram := k.ram, slots := k.slots, cur := 0,
          at := KernelCode, power := On, mode := Super, sstatus := hart.sstatus.(sie := false),
          sscratch := 0, turns := 0, switches := 0)
  }

  lemma CreatedTidy(lay: Layout, k: Tables, n: nat)
    requires Created(lay, k, n)
    ensures n < PROCS_MAX == |k.slots| && forall i :: 0 <= i < PROCS_MAX ==> |k.slots[i].frame| == FRAME_WORDS
  {
    hide HeapOk;
    forall i | 0 <= i < PROCS_MAX ensures |k.slots[i].frame| == FRAME_WORDS { assert SlotCreated(k, n, i); }
  }

  /** kernel_main, outcome by outcome. */
  lemma StartFails(lay: Layout, ram: Ram, programs: seq<Program>, ticksPerMs: nat, armed: bool, hart: Machine)
    requires Fresh(lay, ram) && AllFit(programs) && |hart.regs| == 32
    ensures CreateIdle(lay, ram).Panic? || !armed ==> Start(lay, ram, programs, ticksPerMs, armed, hart).Panic?
  {
    hide CreateIdle, CreateAll, Fresh, Created;
    if CreateIdle(lay, ram).Done? { IdleCreated(lay, ram); }
  }

  lemma StartGoesOn(lay: Layout, ram: Ram, programs: seq<Program>, ticksPerMs: nat, hart: Machine, k0: Tables)
    requires Fresh(lay, ram) && AllFit(programs) && |hart.regs| == 32 && CreateIdle(lay, ram) == Done(k0)
    ensures Created(lay, k0, 0)
    ensures match CreateAll(lay, k0, 0, programs)
      case Panic => Start(lay, ram, programs, ticksPerMs, true, hart).Panic?
      case Done(k) =>
        && Created(lay, k, |programs|) && Tidy(BootMachine(lay, k, |programs|, ticksPerMs, hart))
        && Start(lay, ram, programs, ticksPerMs, true, hart)
           == Done(Yield(BootMachine(lay, k, |programs|, ticksPerMs, hart), Call.Boot))
  {
    hide CreateIdle, CreateAll, Fresh, Created;
    IdleCreated(lay, ram);
    if CreateAll(lay, k0, 0, programs).Done? {
      AllCreatedInTurn(lay, k0, 0, programs);
      CreatedTidy(lay, CreateAll(lay, k0, 0, programs).value, |programs|);
    }
  }

  // ---- the machine that results ----

  /** The first yield installs satp and sscratch, and the machine is in order. */
  lemma FirstYieldInv(lay: Layout, k: Tables, n: nat, ticksPerMs: nat, hart: Machine)
    requires Created(lay, k, n) && n >= 1 && ValidRegs(hart.regs)
    ensures Tidy(BootMachine(lay, k, n, ticksPerMs, hart))
    ensures Inv(Yield(BootMachine(lay, k, n, ticksPerMs, hart), Call.Boot))
  {
    CreatedTidy(lay, k, n);
    hide HeapOk, Counted, AllInUse, Walk, Pick;
    var m := BootMachine(lay, k, n, ticksPerMs, hart);
    var slots := k.slots[0 := k.slots[0].(call := Call.Boot)];
    forall i | 0 <= i < PROCS_MAX ensures SlotShape(slots, n, i) { assert SlotCreated(k, n, i); }
    assert SlotCreated(k, n, 0) && SlotCreated(k, n, 1);
    PickIsRunnable(slots, n, 0);
    var t := Yield(m, Call.Boot);
    forall i | 0 <= i <= t.users ensures RootOk(t, i) && Suspended(t, i) { assert SlotCreated(k, n, i); }
  }

  lemma StartInv(lay: Layout, ram: Ram, programs: seq<Program>, ticksPerMs: nat, armed: bool, hart: Machine)
    requires Fresh(lay, ram) && AllFit(programs) && ValidRegs(hart.regs) && |programs| >= 1
    requires Start(lay, ram, programs, ticksPerMs, armed, hart).Done?
    ensures Inv(Start(lay, ram, programs, ticksPerMs, armed, hart).value)
  {
    hide CreateIdle, CreateAll, Fresh, Inv, BootMachine, Created;
    var k0 := CreateIdle(lay, ram).value;
    IdleCreated(lay, ram);
    var k := CreateAll(lay, k0, 0, programs).value;
    AllCreatedInTurn(lay, k0, 0, programs);
    FirstYieldInv(lay, k, |programs|, ticksPerMs, hart);
  }

  // ---- what the new processes see ----

  /** Process p holds its program: its argument, the image at the start of its
      memory with zeros behind, and no page mapped beyond the image. */
  ghost predicate Holds(k: Tables, p: nat, program: Program) {
    && 0 < p < |k.slots| && k.slots[p].arg == program.arg && k.slots[p].call == Entry
    && forall o: nat :: o < USER_SIZE ==> HoldsAt(k, p, program.image, o)
  }

  ghost predicate HoldsAt(k: Tables, p: nat, image: seq<Byte>, o: nat)
    requires p < |k.slots|
  {
    && FlatByte(k.ram.mem, k.slots[p].root, o) == (if o < |image| then image[o] else 0)
    && (Vacant(k.ram, p + 1, o) <==> o - o % PAGE_SIZE >= |image|)
  }

  /** A page is mapped by the load loop exactly if it holds bytes of the image. */
  lemma {:induction false} LoadImageVacant(lay: Layout, r: Ram, s: nat, root: nat, image: seq<Byte>, off: nat, k: nat, o: nat)
    requires Loading(lay, r, s, root, image, off) && LoadImage(lay, r, s, root, image, off).Done? && o < USER_SIZE
    ensures var r' := LoadImage(lay, r, s, root, image, off).value;
      Vacant(r', k, o) <==> Vacant(r, k, o) && !(k == s && off <= o - o % PAGE_SIZE < |image|)
    decreases |image| - off
  {
    hide GivePage, Given, Tree, Owns, Vacant, UserLabel, Chunk, Vpn;
    if off < |image| {
      LoadReady(lay, r, s, root, image, off);
      LoadStep(lay, r, s, root, image, off);
      var r1 := GivePage(lay, r, s, root, USER_BASE + off, Chunk(image, off)).value;
      var r2, r3 := LoadGiven(lay, r, s, root, image, off);
      GiveExtendsBook(lay, r, r2, r3, r1, s, USER_BASE + off, Chunk(image, off));
      GiveVacant(r, r1, s, off, k, o);
      LoadImageVacant(lay, r1, s, root, image, off + PAGE_SIZE, k, o);
    }
  }

  lemma GiveVacant(r: Ram, r': Ram, s: nat, off: nat, k: nat, o: nat)
    requires off % PAGE_SIZE == 0 && off < USER_SIZE && o < USER_SIZE
    requires forall x :: x in r.book && x != UserLabel(s, USER_BASE + off) ==> x in r'.book
    requires forall x :: x in r'.book && x !in r.book ==> x == UserLabel(s, USER_BASE + off) || !x.Page?
    requires UserLabel(s, USER_BASE + off) in r'.book
    ensures Vacant(r', k, o) <==> Vacant(r, k, o) && !(k == s && o - o % PAGE_SIZE == off)
  {
    PageOfOffset(off, o);
    SamePage(USER_BASE + o, USER_BASE + off);
    UserVpns(USER_BASE + o);
    UserVpns(USER_BASE + off);
  }

  lemma PageOfOffset(off: nat, o: nat)
    requires off % PAGE_SIZE == 0
    ensures o - o % PAGE_SIZE == off <==> (USER_BASE + o) / PAGE_SIZE == (USER_BASE + off) / PAGE_SIZE
  {
  }

  /** A new root, with nothing below it yet, changes no process's memory. */
  lemma NewSpaceFlat(lay: Layout, r: Ram, r1: Ram, s: nat, root: nat, k: nat, o: nat)
    requires HeapOk(lay, r) && HeapOk(lay, r1) && SameBelow(r.mem, r1.mem, r.next) && o < USER_SIZE
    requires r1.book == r.book[Root(s) := root] && Root(s) !in r.book && s > 0 && k > 0
    requires k == s || Root(k) in r.book
    ensures Root(k) in r1.book
    ensures k != s ==> FlatByte(r1.mem, r1.book[Root(k)], o) == FlatByte(r.mem, r.book[Root(k)], o)
    ensures k == s ==> FlatByte(r1.mem, r1.book[Root(k)], o) == 0
  {
    hide HeapOk, FlatByte, RamByte, Tree;
    FlatIsBook(lay, r1, k, o);
    HeapIsTree(lay, r);
    var l := UserLabel(k, USER_BASE + o);
    if k != s {
      FlatIsBook(lay, r, k, o);
      if l in r.book {
        TreePlace(lay, r, l);
        PageWord(r.book[l], o % PAGE_SIZE);
        SameByte(r.mem, r1.mem, r.book[l] * PAGE_SIZE + o % PAGE_SIZE);
      }
    } else if l in r1.book {
      LabelHasRoot(lay, r, l);
    }
  }

  lemma SameByte(m: Mem, m': Mem, pa: nat)
    requires pa / 8 < |m| == |m'| && m'[pa / 8] == m[pa / 8]
    ensures RamByte(m', pa) == RamByte(m, pa)
  {
  }

  /** create_process2 gives the new process its image and leaves the others alone. */
  lemma CreatedFlat(lay: Layout, k: Tables, k1: Tables, k2: Tables, n: nat, root: nat, image: seq<Byte>, arg: Word, p: nat, o: nat)
    requires Created(lay, k, n) && n + 1 < PROCS_MAX && Steps(lay, k, k1, k2, n, root, image, arg)
    requires 1 <= p <= n + 1 && o < USER_SIZE
    ensures Root(p + 1) in k2.ram.book && (p <= n ==> Root(p + 1) in k.ram.book)
    ensures FlatByte(k2.ram.mem, k2.ram.book[Root(p + 1)], o) ==
      if p <= n then FlatByte(k.ram.mem, k.ram.book[Root(p + 1)], o) else if o < |image| then image[o] else 0
    ensures Vacant(k2.ram, p + 1, o) <==> if p <= n then Vacant(k.ram, p + 1, o) else o - o % PAGE_SIZE >= |image|
  {
    hide HeapOk, Loading, LoadImage, FlatByte, SameBelow, Counted, AllInUse, Fresh;
    if p <= n { assert SlotCreated(k, n, p); }
    NewSpaceFlat(lay, k.ram, k1.ram, n + 2, root, p + 1, o);
    LoadImageFlat(lay, k1.ram, n + 2, root, image, 0, p + 1, o);
    LoadImageVacant(lay, k1.ram, n + 2, root, image, 0, p + 1, o);
  }

  /** The processes created so far hold their programs. */
  ghost predicate AllHold(k: Tables, programs: seq<Program>) {
    forall p :: 1 <= p <= |programs| ==> HoldsIts(k, p, programs)
  }

  ghost predicate HoldsIts(k: Tables, p: nat, programs: seq<Program>)
    requires 1 <= p <= |programs|
  {
    Holds(k, p, programs[p - 1])
  }

  lemma NextHolds(lay: Layout, k: Tables, n: nat, programs: seq<Program>, program: Program)
    requires Created(lay, k, n) && |programs| == n && AllHold(k, programs) && |program.image| <= USER_SIZE
    requires CreateNext(lay, k, n, program).Done?
    ensures AllHold(CreateNext(lay, k, n, program).value, programs + [program])
  {
    LoadIsReady(lay, k, n, program.image);
    var k2 := CreateNext(lay, k, n, program).value;
    var k1, root := CreatedPieces(lay, k, n, program.image, program.arg);
    hide Created, Steps, CreateNext, CreateProcess, CanCreate;
    var all := programs + [program];
    forall p | 1 <= p <= |all| ensures HoldsIts(k2, p, all) {
      if p <= n { assert HoldsIts(k, p, programs); }
      HoldsNow(lay, k, k1, k2, n, root, program, p, all[p - 1]);
    }
  }

  lemma HoldsNow(lay: Layout, k: Tables, k1: Tables, k2: Tables, n: nat, root: nat, program: Program, p: nat, held: Program)
    requires Created(lay, k, n) && n + 1 < PROCS_MAX && Steps(lay, k, k1, k2, n, root, program.image, program.arg)
    requires 1 <= p <= n + 1 && if p <= n then Holds(k, p, held) else held == program
    ensures Holds(k2, p, held)
  {
    CreatedTables(lay, k, k1, k2, n, root, program.image, program.arg);
    CreatedRoot(lay, k2, n + 1, p);
    if p <= n { CreatedRoot(lay, k, n, p); }
    SlotKept(lay, k, k1, k2, n, root, program, p);
    hide Created, Steps, FlatByte, Vacant;
    forall o: nat | o < USER_SIZE ensures HoldsAt(k2, p, held.image, o) {
      CreatedFlat(lay, k, k1, k2, n, root, program.image, program.arg, p, o);
      if p <= n { assert HoldsAt(k, p, held.image, o); }
    }
  }

  lemma SlotKept(lay: Layout, k: Tables, k1: Tables, k2: Tables, n: nat, root: nat, program: Program, p: nat)
    requires Steps(lay, k, k1, k2, n, root, program.image, program.arg) && 1 <= p <= n + 1
    ensures p < |k2.slots| && p < |k.slots|
    ensures p <= n ==> k2.slots[p] == k.slots[p]
    ensures p == n + 1 ==> k2.slots[p].arg == program.arg && k2.slots[p].call == Entry
  {
    hide HeapOk, Loading, LoadImage, AllVacant, SameBelow, Counted;
  }

  lemma CreatedRoot(lay: Layout, k: Tables, n: nat, p: nat)
    requires Created(lay, k, n) && p <= n
    ensures p < |k.slots| && Root(p + 1) in k.ram.book && k.slots[p].root == k.ram.book[Root(p + 1)]
  {
    hide HeapOk, Fresh, Counted, AllInUse;
    assert SlotCreated(k, n, p);
  }

  lemma {:induction false} EveryoneHolds(lay: Layout, k: Tables, n: nat, earlier: seq<Program>, programs: seq<Program>)
    requires Created(lay, k, n) && |earlier| == n && AllHold(k, earlier) && AllFit(programs)
    requires CreateAll(lay, k, n, programs).Done?
    ensures AllHold(CreateAll(lay, k, n, programs).value, earlier + programs)
    decreases |programs|
  {
    hide CreateNext, Created, AllHold;
    if |programs| == 0 {
      assert earlier + programs == earlier;
    } else {
      NextHolds(lay, k, n, earlier, programs[0]);
      EveryoneHolds(lay, CreateNext(lay, k, n, programs[0]).value, n + 1, earlier + [programs[0]], programs[1..]);
      assert earlier + [programs[0]] + programs[1..] == earlier + programs;
    }
  }

  /** A private machine as it is born: the image, zeros behind it, and the argument. */
  ghost predicate Born(v: Vm, pid: nat, program: Program) {
    && v.pid == pid && v.cpu == Unborn(program.arg) && |v.memory| == USER_SIZE
    && forall o :: 0 <= o < USER_SIZE ==> v.memory[o] == if o < |program.image| then program.image[o] else 0
  }

  /** What user code of process p reaches, at any address and with any access: the pages
      that hold bytes of the image, and nothing else. */
  ghost predicate Reaches(mem: Mem, root: nat, image: seq<Byte>) {
    forall va: nat, access :: Translate(mem, root, va, access, User) != Fault <==> OnImagePage(va, image)
  }

  predicate OnImagePage(va: nat, image: seq<Byte>) {
    0x100_0000 <= va < 0x180_0000 && (va - 0x100_0000) - (va - 0x100_0000) % 4096 < |image|
  }

  lemma HoldsReaches(lay: Layout, k: Tables, n: nat, p: nat, program: Program)
    requires Created(lay, k, n) && 1 <= p <= n && Holds(k, p, program)
    ensures p < |k.slots| && Reaches(k.ram.mem, k.slots[p].root, program.image)
  {
    hide Created, FlatByte, Translate, UserLabel, HeapOk;
    CreatedRoot(lay, k, n, p);
    CreatedHeap(lay, k, n);
    forall va: nat, access
      ensures Translate(k.ram.mem, k.slots[p].root, va, access, User) != Fault <==> OnImagePage(va, program.image)
    {
      TranslateUser(lay, k.ram, p + 1, va, access);
      if InUserRange(va) {
        assert HoldsAt(k, p, program.image, va - USER_BASE);
        assert USER_BASE + (va - USER_BASE) == va;
      }
    }
  }

  lemma CreatedHeap(lay: Layout, k: Tables, n: nat)
    requires Created(lay, k, n)
    ensures HeapOk(lay, k.ram)
  {
    hide HeapOk;
  }

  lemma YieldBorn(lay: Layout, k: Tables, n: nat, ticksPerMs: nat, hart: Machine, p: nat, program: Program)
    requires Created(lay, k, n) && 1 <= p <= n && Holds(k, p, program) && |hart.regs| == 32
    requires Tidy(BootMachine(lay, k, n, ticksPerMs, hart))
    ensures Born(View(Yield(BootMachine(lay, k, n, ticksPerMs, hart), Call.Boot), p), p + 1, program)
    ensures var t := Yield(BootMachine(lay, k, n, ticksPerMs, hart), Call.Boot);
      t.slots[p].root == k.slots[p].root && t.ram == k.ram
  {
    hide HeapOk, Fresh, Counted, AllInUse, FlatByte, Pick, Vacant;
    assert SlotCreated(k, n, p);
    var t := Yield(BootMachine(lay, k, n, ticksPerMs, hart), Call.Boot);
    assert t.slots[p] == k.slots[p] && t.ram == k.ram && t.at == KernelCode;
    forall o: nat | o < USER_SIZE ensures View(t, p).memory[o] == if o < |program.image| then program.image[o] else 0 {
      assert HoldsAt(k, p, program.image, o);
    }
  }

  /** Process birth is correct for every list of programs: when the first yield has
      switched away from the boot context, process p is a private machine with pid
      p + 1, its own argument, and exactly its own image in memory, of which exactly
      the pages are mapped for it. */
  lemma StartBorn(lay: Layout, ram: Ram, programs: seq<Program>, ticksPerMs: nat, armed: bool, hart: Machine, p: nat)
    requires Fresh(lay, ram) && AllFit(programs) && ValidRegs(hart.regs) && 1 <= p <= |programs|
    requires Start(lay, ram, programs, ticksPerMs, armed, hart).Done?
    ensures var t := Start(lay, ram, programs, ticksPerMs, armed, hart).value;
      && Tidy(t) && p < PROCS_MAX && Born(View(t, p), p + 1, programs[p - 1])
      && Reaches(t.ram.mem, t.slots[p].root, programs[p - 1].image)
  {
    hide CreateIdle, CreateAll, Fresh, Inv, BootMachine, Created, Born, Holds, Reaches;
    StartInv(lay, ram, programs, ticksPerMs, armed, hart);
    var k0 := CreateIdle(lay, ram).value;
    IdleCreated(lay, ram);
    var k := CreateAll(lay, k0, 0, programs).value;
    AllCreatedInTurn(lay, k0, 0, programs);
    EveryoneHolds(lay, k0, 0, [], programs);
    assert [] + programs == programs;
    FirstYieldInv(lay, k, |programs|, ticksPerMs, hart);
    CreatedTidy(lay, k, |programs|);
    assert HoldsIts(k, p, programs);
    YieldBorn(lay, k, |programs|, ticksPerMs, hart, p, programs[p - 1]);
    HoldsReaches(lay, k, |programs|, p, programs[p - 1]);
  }

  /** The whole life of a process: born with its own program, it is, over every run
      of the system, its own private machine. */
  lemma SystemIsPrivate(lay: Layout, ram: Ram, programs: seq<Program>, ticksPerMs: nat, hart: Machine,
                        start: Machine, events: seq<Event>, t: Machine, p: nat)
    requires Fresh(lay, ram) && AllFit(programs) && ValidRegs(hart.regs) && 1 <= p <= |programs|
    requires Start(lay, ram, programs, ticksPerMs, true, hart) == Done(start)
    requires Runs(start, events, t) && t.power != Panicked
    ensures Tidy(start) && Tidy(t) && p < PROCS_MAX
    ensures Born(View(start, p), p + 1, programs[p - 1])
    ensures VmRuns(View(start, p), Projection(start, events, p), View(t, p))
  {
    StartInv(lay, ram, programs, ticksPerMs, true, hart);
    StartBorn(lay, ram, programs, ticksPerMs, true, hart, p);
    StartUsers(lay, ram, programs, ticksPerMs, hart);
    hide Start, Inv, Fresh, Born, View, Runs, Projection, VmRuns, Tidy;
    RunsArePrivate(start, events, t, p);
  }

  lemma StartUsers(lay: Layout, ram: Ram, programs: seq<Program>, ticksPerMs: nat, hart: Machine)
    requires Fresh(lay, ram) && AllFit(programs) && |hart.regs| == 32
    requires Start(lay, ram, programs, ticksPerMs, true, hart).Done?
    ensures var t := Start(lay, ram, programs, ticksPerMs, true, hart).value;
      t.lay == lay && t.users == |programs| && t.power == On
  {
    hide CreateIdle, CreateAll, Fresh, Created, Pick;
    var k0 := CreateIdle(lay, ram).value;
    IdleCreated(lay, ram);
    var k := CreateAll(lay, k0, 0, programs).value;
    AllCreatedInTurn(lay, k0, 0, programs);
    CreatedTidy(lay, k, |programs|);
  }
}
