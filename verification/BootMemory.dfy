/** How much memory booting takes, to the page: when it succeeds, for every list of
    programs and every amount of free memory. */
module BootMemory {
  import opened Words
  import opened Sv39
  import opened Pte
  import opened PhysMemory
  import opened PageTables
  import opened Heap
  import opened UserPages
  import opened AddressSpaces
  import opened Budget
  import opened Scheduler
  import opened Machine
  import opened Boot
  import opened Startup

  function Ceil(a: nat, b: nat): nat
    requires b > 0
  {
    QuotientIsNat(a + b - 1, b);
    (a + b - 1) / b
  }

  /** The pages of one user process at birth: its root; and, unless the image is empty,
      a middle table, a last-level table for each 2 MB begun and each page begun. */
  function Need(image: seq<Byte>): nat {
    1 + if |image| == 0 then 0 else 1 + Ceil(|image|, 0x20_0000) + Ceil(|image|, PAGE_SIZE)
  }

  function NeedAll(programs: seq<Program>): nat {
    if |programs| == 0 then 0 else Need(programs[0].image) + NeedAll(programs[1..])
  }

  /** The pages of everything that booting creates: kernel tables, the root of the
      idle process, and the user processes. */
  function BootPages(lay: Layout, programs: seq<Program>): nat
    requires lay.Ok()
  {
    KernelTables(lay) + 1 + NeedAll(programs)
  }

  /** An operation that panics exactly if `cost` more pages are not there. */
  ghost predicate Costs(lay: Layout, r: Ram, res: Result<Ram>, cost: int) {
    && (res.Done? <==> r.next + cost <= lay.endF)
    && (res.Done? ==> res.value.next == r.next + cost)
  }

  function RamOf(res: Result<Tables>): Result<Ram> {
    match res case Panic => Panic case Done(k) => Done(k.ram)
  }

  /** Costs of one operation after another add up. */
  lemma Chain(lay: Layout, r: Ram, first: Result<Ram>, a: int, second: Result<Ram>, b: int)
    requires Costs(lay, r, first, a) && b >= 0
    requires first.Panic? ==> second.Panic?
    requires first.Done? ==> Costs(lay, first.value, second, b)
    ensures Costs(lay, r, second, a + b)
  {
  }

  // ---- the template ----

  /** Tables that mapping kernel page f makes. */
  function PageCost(f: nat): nat { if f == BASE_F then 2 else if f % 512 == 0 then 1 else 0 }

  /** Tables that mapping the kernel pages from f to endF makes. */
  function TablesLeft(f: nat, endF: nat): nat
    decreases endF - f
  {
    if f >= endF then 0 else PageCost(f) + TablesLeft(f + 1, endF)
  }

  lemma {:induction false} TablesInAll(f: nat, endF: nat)
    requires BASE_F < f <= endF
    ensures TablesLeft(f, endF) == (endF - 1) / 512 - (f - 1) / 512
    decreases endF - f
  {
    if f < endF { TablesInAll(f + 1, endF); }
  }

  lemma TemplateTables(lay: Layout)
    requires lay.Ok()
    ensures 1 + TablesLeft(BASE_F, lay.endF) == KernelTables(lay)
  {
    TablesInAll(BASE_F + 1, lay.endF);
    var last := (lay.endF - 1) / 512;
    assert BASE_F / 512 == 0x401 && 0x401 <= last < 0x600;
    assert last % 512 == last - 0x400;
  }

  /** No table has been made before its time. */
  ghost predicate Frugal(r: Ram, f: nat) {
    forall l :: l in r.book ==>
      match l
      case Root(s) => true
      case Mid(_, _) => f > BASE_F
      case Low(_, _, i1) => KERNEL_VPN2 * 0x4_0000 + i1 * 512 < f
      case Page(_, _, _, _) => false
  }

  /** The tables that kernel page f lacks. */
  lemma KernelPathCost(lay: Layout, r: Ram, root: nat, f: nat)
    requires UpTo(lay, r, root, f) && Frugal(r, f) && f < lay.endF && lay.Ok()
    ensures f * PAGE_SIZE < WORD_LIMIT && PathCost(r.book, Root(0), f * PAGE_SIZE) == PageCost(f)
  {
    KernelPageVpns(lay, f);
    hide Vpn, LeafOk;
    var mid, low := Child(Root(0), KERNEL_VPN2), KernelLow(f);
    if f > BASE_F {
      assert KernelLow(f - 1) in r.book;
      assert Parent(KernelLow(f - 1)) in r.book;
      if f % 512 != 0 { SameKernelLow(f); }
    }
  }

  lemma SameKernelLow(f: nat)
    requires f > BASE_F && f % 512 != 0
    ensures KernelLow(f - 1) == KernelLow(f)
  {
  }

  lemma KernelPageExact(lay: Layout, r: Ram, root: nat, f: nat)
    requires UpTo(lay, r, root, f) && Frugal(r, f) && f < lay.endF
    ensures lay.Ok() && f >= BASE_F
    ensures Costs(lay, r, MapKernelPage(lay, r, root, f), PageCost(f))
    ensures MapKernelPage(lay, r, root, f).Done? ==> Frugal(MapKernelPage(lay, r, root, f).value, f + 1)
  {
    hide UpTo, MapKernelPage, MapPage, PathCost, Tree, Sole, Vpn, Frugal, PageCost, Costs;
    UpToIsTree(lay, r, root, f);
    PageIsMap(lay, r, root, f);
    KernelPathCost(lay, r, root, f);
    KernelMapExact(lay, r, f);
    var res := MapPage(lay, r, Root(0), root, f * PAGE_SIZE, f * PAGE_SIZE, KERNEL_RWX);
    if res.Done? {
      MapPageBook(lay, r, Root(0), f * PAGE_SIZE, f * PAGE_SIZE, KERNEL_RWX);
      KernelPageVpns(lay, f);
      StaysFrugal(r, res.value, f);
    }
  }

  lemma KernelMapExact(lay: Layout, r: Ram, f: nat)
    requires Tree(lay, r) && Root(0) in r.book && lay.Ok() && BASE_F <= f < lay.endF && f * PAGE_SIZE < WORD_LIMIT
    requires f * PAGE_SIZE < PPN_LIMIT * PAGE_SIZE && Sole(r.book, Root(0), Vpn(f * PAGE_SIZE, 2))
    ensures Costs(lay, r, MapPage(lay, r, Root(0), r.book[Root(0)], f * PAGE_SIZE, f * PAGE_SIZE, KERNEL_RWX),
                  PathCost(r.book, Root(0), f * PAGE_SIZE))
  {
    hide MapPage, PathCost, Tree, Sole, Vpn;
    MapPageExact(lay, r, Root(0), f * PAGE_SIZE, f * PAGE_SIZE, KERNEL_RWX);
  }

  lemma PageIsMap(lay: Layout, r: Ram, root: nat, f: nat)
    requires UpTo(lay, r, root, f) && f < lay.endF
    ensures Tree(lay, r) && Root(0) in r.book && root == r.book[Root(0)] && f * PAGE_SIZE < WORD_LIMIT
    ensures f * PAGE_SIZE < PPN_LIMIT * PAGE_SIZE && Sole(r.book, Root(0), Vpn(f * PAGE_SIZE, 2))
    ensures MapKernelPage(lay, r, root, f) == MapPage(lay, r, Root(0), root, f * PAGE_SIZE, f * PAGE_SIZE, KERNEL_RWX)
  {
    KernelPageReady(lay, r, f);
    hide MapPage, Tree;
  }

  lemma UpToIsTree(lay: Layout, r: Ram, root: nat, f: nat)
    requires UpTo(lay, r, root, f)
    ensures Tree(lay, r) && Root(0) in r.book && root == r.book[Root(0)] && lay.Ok() && BASE_F <= f <= lay.endF
  {
  }

  lemma StaysFrugal(r: Ram, r': Ram, f: nat)
    requires Frugal(r, f) && BASE_F <= f < 0xC_0000
    requires forall x :: x in r'.book ==> x in r.book || x == KernelLow(f) || x == Parent(KernelLow(f))
    ensures Frugal(r', f + 1)
  {
  }

  lemma {:induction false} TemplateExact(lay: Layout, r: Ram, root: nat, f: nat)
    requires UpTo(lay, r, root, f) && Frugal(r, f)
    ensures Costs(lay, r, MapKernel(lay, r, root, f), TablesLeft(f, lay.endF))
    decreases lay.endF - f
  {
    hide MapKernelPage, UpTo, Frugal, Tree, Costs, PageCost;
    UpToIsTree(lay, r, root, f);
    if f == lay.endF {
      TreeIsSized(lay, r);
      NothingCosts(lay, r);
    } else {
      KernelPageExact(lay, r, root, f);
      var step := MapKernelPage(lay, r, root, f);
      if step.Done? { TemplateExact(lay, step.value, root, f + 1); }
      Chain(lay, r, step, PageCost(f), MapKernel(lay, r, root, f), TablesLeft(f + 1, lay.endF));
    }
  }

  lemma NothingCosts(lay: Layout, r: Ram)
    requires Sized(lay, r)
    ensures Costs(lay, r, Done(r), 0)
  {
  }

  lemma NewTemplateExact(lay: Layout, ram: Ram)
    requires Fresh(lay, ram)
    ensures lay.Ok()
    ensures var res := NewTemplate(lay, ram);
      Costs(lay, ram, if res.Done? then Done(res.value.0) else Panic, KernelTables(lay))
  {
    TemplateTables(lay);
    hide MapKernel, UpTo, KernelTables, TablesLeft;
    var (r1, f) := AllocPage(lay, ram).value;
    var r2 := NameRoot(lay, ram, r1, f);
    OnlyRoot(lay, ram, r1, f);
    TemplateExact(lay, r2, f, BASE_F);
  }

  lemma OnlyRoot(lay: Layout, ram: Ram, r1: Ram, f: nat)
    requires Fresh(lay, ram) && ram.next < lay.endF && (r1, f) == AllocPage(lay, ram).value
    ensures Frugal(NameRoot(lay, ram, r1, f), BASE_F) && NameRoot(lay, ram, r1, f).next == lay.freeF + 1
  {
  }

  lemma IdleExact(lay: Layout, ram: Ram)
    requires Fresh(lay, ram)
    ensures lay.Ok() && Costs(lay, ram, RamOf(CreateIdle(lay, ram)), KernelTables(lay) + 1)
  {
    NewTemplateExact(lay, ram);
    FirstTableExact(lay, ram);
    hide TableFor, Fresh, FreeSlot, BootSlots, UnusedSlot, KernelTables, Costs;
    assert BootSlots()[0] == UnusedSlot();
  }

  lemma FirstTableExact(lay: Layout, ram: Ram)
    requires Fresh(lay, ram) && lay.Ok()
    requires var res := NewTemplate(lay, ram);
      Costs(lay, ram, if res.Done? then Done(res.value.0) else Panic, KernelTables(lay))
    ensures var res := TableFor(lay, ram, 0, 1);
      Costs(lay, ram, if res.Done? then Done(res.value.0) else Panic, KernelTables(lay) + 1)
  {
    if NewTemplate(lay, ram).Done? {
      TemplateIsHeap(lay, ram);
      var (r1, t) := NewTemplate(lay, ram).value;
      hide NewTemplate, Fresh, KernelTables;
      CopyExact(lay, r1, t, 1);
    }
  }

  lemma CopyExact(lay: Layout, r: Ram, template: nat, s: nat)
    requires HeapOk(lay, r) && Root(0) in r.book && r.book[Root(0)] == template
    ensures var res := CopyFor(lay, r, template, s);
      Costs(lay, r, if res.Done? then Done(res.value.0) else Panic, 1)
  {
    hide HeapOk, CopyPage;
  }

  // ---- one user process ----

  /** Middle table, last-level tables and pages when n pages of the image are mapped. */
  function UserCost(n: nat): nat { if n == 0 then 0 else 1 + Ceil(n, 512) + n }

  /** Exactly the tables that n pages need exist in space s. */
  ghost predicate Tight(r: Ram, s: nat, n: nat) {
    && (Mid(s, 0) in r.book <==> n > 0)
    && forall i1 :: 8 <= i1 < 12 ==> (Low(s, 0, i1) in r.book <==> (i1 - 8) * 512 < n)
  }

  lemma CostGrows(n: nat)
    ensures UserCost(n + 1) - UserCost(n) == 1 + (if n == 0 then 1 else 0) + (if n % 512 == 0 then 1 else 0)
  {
  }

  lemma CostOnlyGrows(n: nat, k: nat)
    requires n <= k
    ensures UserCost(n) <= UserCost(k)
  {
  }

  /** The labels on the path of the n-th page of the user range. */
  lemma UserPath(s: nat, n: nat)
    requires n < 2048
    ensures var va := USER_BASE + n * PAGE_SIZE;
      && Vpn(va, 2) == 0 && 8 <= Vpn(va, 1) == 8 + n / 512 < 12 && va < 0x40_0000_0000 && va % PAGE_SIZE == 0
      && Child(Root(s), Vpn(va, 2)) == Mid(s, 0) && LowLabel(Root(s), va) == Low(s, 0, 8 + n / 512)
  {
  }

  lemma TightCost(r: Ram, s: nat, n: nat)
    requires Tight(r, s, n) && n < 2048
    ensures 1 + PathCost(r.book, Root(s), USER_BASE + n * PAGE_SIZE) == UserCost(n + 1) - UserCost(n)
  {
    UserPath(s, n);
    CostGrows(n);
    hide Vpn, UserCost;
  }

  lemma StaysTight(r: Ram, r': Ram, s: nat, n: nat)
    requires Tight(r, s, n) && n < 2048
    requires forall x :: x in r'.book <==>
      var low := LowLabel(Root(s), USER_BASE + n * PAGE_SIZE);
      x in r.book || x == UserLabel(s, USER_BASE + n * PAGE_SIZE) || x == low || x == Parent(low)
    ensures Tight(r', s, n + 1)
  {
    UserPath(s, n);
    hide Vpn;
  }

  /** Pages that the load loop still takes after n of them. */
  function LoadLeft(image: seq<Byte>, n: nat): int {
    if n < Ceil(|image|, PAGE_SIZE) then UserCost(Ceil(|image|, PAGE_SIZE)) - UserCost(n) else 0
  }

  lemma {:induction false} LoadExact(lay: Layout, r: Ram, s: nat, root: nat, image: seq<Byte>, n: nat)
    requires Loading(lay, r, s, root, image, n * PAGE_SIZE) && Tight(r, s, n)
    ensures Costs(lay, r, LoadImage(lay, r, s, root, image, n * PAGE_SIZE), LoadLeft(image, n))
    decreases |image| - n * PAGE_SIZE
  {
    var off := n * PAGE_SIZE;
    MorePages(|image|, n);
    hide GivePage, Tight, Ceil, Loading, LoadImage, UserCost, Vpn, Costs, Tree, Chunk, LoadTurn, LoadLeft;
    if off < |image| {
      LoadReady(lay, r, s, root, image, off);
      LoadTurns(lay, r, s, root, image, off);
      GivenExact(lay, r, s, root, image, n);
      var step := GivePage(lay, r, s, root, USER_BASE + off, Chunk(image, off));
      TurnKeepsLoading(lay, r, s, root, image, off, step);
      if step.Done? { LoadExact(lay, step.value, s, root, image, n + 1); }
      LoadAdds(lay, r, s, root, image, n, step);
    } else {
      LoadEnds(lay, r, s, root, image, n);
    }
  }

  lemma TurnKeepsLoading(lay: Layout, r: Ram, s: nat, root: nat, image: seq<Byte>, off: nat, step: Result<Ram>)
    requires Loading(lay, r, s, root, image, off) && LoadTurn(lay, r, s, root, image, off, step)
    ensures step.Done? ==> Loading(lay, step.value, s, root, image, off + PAGE_SIZE)
  {
    hide Loading, LoadImage;
  }

  lemma LoadAdds(lay: Layout, r: Ram, s: nat, root: nat, image: seq<Byte>, n: nat, step: Result<Ram>)
    requires Loading(lay, r, s, root, image, n * PAGE_SIZE) && n * PAGE_SIZE < |image|
    requires LoadTurn(lay, r, s, root, image, n * PAGE_SIZE, step)
    requires Costs(lay, r, step, UserCost(n + 1) - UserCost(n))
    requires step.Done? ==> Loading(lay, step.value, s, root, image, n * PAGE_SIZE + PAGE_SIZE)
    requires step.Done? ==> Costs(lay, step.value, LoadImage(lay, step.value, s, root, image, n * PAGE_SIZE + PAGE_SIZE), LoadLeft(image, n + 1))
    ensures Costs(lay, r, LoadImage(lay, r, s, root, image, n * PAGE_SIZE), LoadLeft(image, n))
  {
    MorePages(|image|, n);
    CostOnlyGrows(n + 1, Ceil(|image|, PAGE_SIZE));
    hide Loading, LoadImage, UserCost, Ceil, Costs;
    Chain(lay, r, step, UserCost(n + 1) - UserCost(n), LoadImage(lay, r, s, root, image, n * PAGE_SIZE), LoadLeft(image, n + 1));
  }

  lemma LoadEnds(lay: Layout, r: Ram, s: nat, root: nat, image: seq<Byte>, n: nat)
    requires Loading(lay, r, s, root, image, n * PAGE_SIZE) && n * PAGE_SIZE >= |image|
    ensures Costs(lay, r, LoadImage(lay, r, s, root, image, n * PAGE_SIZE), LoadLeft(image, n))
  {
    MorePages(|image|, n);
    LoadedIsSized(lay, r, s, root, image, n * PAGE_SIZE);
    hide Loading, Costs, UserCost, Ceil;
    NothingCosts(lay, r);
  }

  /** One turn of the load loop. */
  ghost predicate LoadTurn(lay: Layout, r: Ram, s: nat, root: nat, image: seq<Byte>, off: nat, step: Result<Ram>)
    requires Loading(lay, r, s, root, image, off)
  {
    hide Loading, LoadImage;
    match step
    case Panic => LoadImage(lay, r, s, root, image, off) == Panic
    case Done(r1) =>
      && Loading(lay, r1, s, root, image, off + PAGE_SIZE)
      && LoadImage(lay, r, s, root, image, off) == LoadImage(lay, r1, s, root, image, off + PAGE_SIZE)
  }

  lemma LoadTurns(lay: Layout, r: Ram, s: nat, root: nat, image: seq<Byte>, off: nat)
    requires Loading(lay, r, s, root, image, off) && off < |image|
    requires USER_BASE + off < WORD_LIMIT && Tree(lay, r) && Root(s) in r.book && root == r.book[Root(s)]
    requires Vpn(USER_BASE + off, 2) != KERNEL_VPN2
    ensures LoadTurn(lay, r, s, root, image, off, GivePage(lay, r, s, root, USER_BASE + off, Chunk(image, off)))
  {
    hide GivePage, Loading, Tree, Vpn;
    LoadStep(lay, r, s, root, image, off);
  }

  /** One page of the load. */
  lemma GivenExact(lay: Layout, r: Ram, s: nat, root: nat, image: seq<Byte>, n: nat)
    requires Loading(lay, r, s, root, image, n * PAGE_SIZE) && n * PAGE_SIZE < |image| && Tight(r, s, n) && n < 2048
    requires var va := USER_BASE + n * PAGE_SIZE;
      va < WORD_LIMIT && Tree(lay, r) && Root(s) in r.book && root == r.book[Root(s)] && Vpn(va, 2) != KERNEL_VPN2
    ensures var res := GivePage(lay, r, s, root, USER_BASE + n * PAGE_SIZE, Chunk(image, n * PAGE_SIZE));
      Costs(lay, r, res, UserCost(n + 1) - UserCost(n)) && (res.Done? ==> Tight(res.value, s, n + 1))
  {
    hide GivePage, Given, Tree, Tight, Loading, UserCost, PathCost, Chunk, Vpn;
    var va, bytes := USER_BASE + n * PAGE_SIZE, Chunk(image, n * PAGE_SIZE);
    UserPath(s, n);
    TightCost(r, s, n);
    GiveExact(lay, r, s, va, bytes);
    var res := GivePage(lay, r, s, root, va, bytes);
    if res.Done? {
      var r2, r3 := LoadGiven(lay, r, s, root, image, n * PAGE_SIZE);
      GiveTables(lay, r, r2, r3, res.value, s, va, bytes);
      StaysTight(r, res.value, s, n);
    }
  }

  lemma LoadedIsSized(lay: Layout, r: Ram, s: nat, root: nat, image: seq<Byte>, off: nat)
    requires Loading(lay, r, s, root, image, off)
    ensures Sized(lay, r)
  {
    HeapIsTree(lay, r);
  }

  lemma MorePages(size: nat, n: nat)
    ensures n * PAGE_SIZE < size <==> n < Ceil(size, PAGE_SIZE)
    ensures n * PAGE_SIZE < size <= USER_SIZE ==> n < 2048
  {
  }

  lemma NeedIsCost(image: seq<Byte>)
    ensures Need(image) == 1 + LoadLeft(image, 0)
  {
  }

  /** create_process2 takes exactly what the image needs, and panics exactly if that is
      not there. */
  lemma ProcessExact(lay: Layout, k: Tables, n: nat, program: Program)
    requires Created(lay, k, n) && n + 1 < PROCS_MAX && |program.image| <= USER_SIZE
    ensures Costs(lay, k.ram, RamOf(CreateNext(lay, k, n, program)), Need(program.image))
  {
    hide AllocProcess, Created, CreateNext, CanCreate, Allocated, LoadImage, Loading, Need, LoadLeft, Costs;
    CreatedIsOk(lay, k, n);
    AllocExact(lay, k, n);
    LoadIsReady(lay, k, n, program.image);
    NeedIsCost(program.image);
    LeftIsNat(program.image);
    var next := RamOf(CreateNext(lay, k, n, program));
    if AllocProcess(lay, k, Entry).Done? {
      var k1, root := AllocatedIsEmpty(lay, k, n);
      AllocatedLoads(lay, k, k1, n, root, program.image);
      AllocatedTight(lay, k, k1, n, root);
      LoadExact(lay, k1.ram, n + 2, root, program.image, 0);
      NextIsLoad(lay, k, k1, n, root, program);
      Chain(lay, k.ram, Done(k1.ram), 1, next, LoadLeft(program.image, 0));
    } else {
      NextNeedsSlot(lay, k, n, program);
      Chain(lay, k.ram, Panic, 1, next, LoadLeft(program.image, 0));
    }
  }

  lemma LeftIsNat(image: seq<Byte>)
    ensures LoadLeft(image, 0) >= 0
  {
    CostOnlyGrows(0, Ceil(|image|, PAGE_SIZE));
  }

  lemma AllocExact(lay: Layout, k: Tables, n: nat)
    requires Created(lay, k, n) && n + 1 < PROCS_MAX
    ensures var res := AllocProcess(lay, k, Entry);
      Costs(lay, k.ram, if res.Done? then Done(res.value.0.ram) else Panic, 1)
  {
    NextFree(lay, k, n);
    hide HeapOk, CopyFor, FreeSlot, AllCreated, Counted, AllInUse;
    CopyExact(lay, k.ram, k.template, n + 2);
  }

  lemma AllocatedTight(lay: Layout, k: Tables, k1: Tables, n: nat, root: nat)
    requires Created(lay, k, n) && Allocated(lay, k, k1, n, root)
    ensures Tight(k1.ram, n + 2, 0)
  {
    hide AllCreated, AllInUse, Counted, AllVacant, SameBelow, LeafOk;
    HeapIsTree(lay, k.ram);
    hide Tree, HeapOk;
    var s := n + 2;
    if Mid(s, 0) in k.ram.book { LabelHasRoot(lay, k.ram, Mid(s, 0)); }
    forall i1 | 8 <= i1 < 12 ensures Low(s, 0, i1) !in k1.ram.book {
      if Low(s, 0, i1) in k.ram.book { LabelHasRoot(lay, k.ram, Low(s, 0, i1)); }
    }
  }

  lemma NextIsLoad(lay: Layout, k: Tables, k1: Tables, n: nat, root: nat, program: Program)
    requires Created(lay, k, n) && CanCreate(lay, k, program.image) && |program.image| <= USER_SIZE
    requires AllocProcess(lay, k, Entry) == Done((k1, n + 1)) && Allocated(lay, k, k1, n, root)
    requires Loading(lay, k1.ram, n + 2, root, program.image, 0)
    ensures RamOf(CreateNext(lay, k, n, program)) == LoadImage(lay, k1.ram, n + 2, root, program.image, 0)
  {
    hide AllocProcess, Created, LoadImage, Loading, HeapOk, AllVacant, SameBelow, Counted, TablesOk;
  }

  lemma NextNeedsSlot(lay: Layout, k: Tables, n: nat, program: Program)
    requires Created(lay, k, n) && |program.image| <= USER_SIZE && AllocProcess(lay, k, Entry).Panic?
    ensures CreateNext(lay, k, n, program).Panic?
  {
    LoadIsReady(lay, k, n, program.image);
    hide AllocProcess, Created, CanCreate;
  }

  lemma {:induction false} AllExact(lay: Layout, k: Tables, n: nat, programs: seq<Program>)
    requires Created(lay, k, n) && AllFit(programs) && n + |programs| < PROCS_MAX
    ensures Costs(lay, k.ram, RamOf(CreateAll(lay, k, n, programs)), NeedAll(programs))
    decreases |programs|
  {
    hide CreateNext, Created, Need, Costs;
    if |programs| > 0 {
      ProcessExact(lay, k, n, programs[0]);
      var step := CreateNext(lay, k, n, programs[0]);
      if step.Done? { AllExact(lay, step.value, n + 1, programs[1..]); }
      Chain(lay, k.ram, RamOf(step), Need(programs[0].image), RamOf(CreateAll(lay, k, n, programs)), NeedAll(programs[1..]));
    } else {
      CreatedIsSized(lay, k, n);
      NothingCosts(lay, k.ram);
    }
  }

  lemma CreatedIsSized(lay: Layout, k: Tables, n: nat)
    requires Created(lay, k, n)
    ensures Sized(lay, k.ram)
  {
    HeapIsTree(lay, k.ram);
  }

  // ---- booting ----

  /** Booting succeeds if and only if the timer can be armed, there is a slot for every
      process, and free memory holds exactly what the template, the idle process and
      the images need. */
  lemma StartExactly(lay: Layout, ram: Ram, programs: seq<Program>, ticksPerMs: nat, armed: bool, hart: Machine)
    requires Fresh(lay, ram) && AllFit(programs) && |hart.regs| == 32
    ensures lay.Ok()
    ensures Start(lay, ram, programs, ticksPerMs, armed, hart).Done? <==>
      armed && |programs| < PROCS_MAX && lay.endF - lay.freeF >= BootPages(lay, programs)
    ensures var res := Start(lay, ram, programs, ticksPerMs, armed, hart);
      res.Done? ==> res.value.ram.next - lay.freeF == BootPages(lay, programs)
  {
    hide CreateIdle, CreateAll, Fresh, BootMachine, Created, KernelTables, Pick, Costs, Start;
    IdleExact(lay, ram);
    NeedAllIsNat(programs);
    var idle := CreateIdle(lay, ram);
    if idle.Done? {
      IdleCreated(lay, ram);
      AllOrTooMany(lay, idle.value, programs);
    }
    StartSteps(lay, ram, programs, ticksPerMs, armed, hart);
    if |programs| < PROCS_MAX {
      var all := if idle.Done? then RamOf(CreateAll(lay, idle.value, 0, programs)) else Panic;
      Chain(lay, ram, RamOf(idle), KernelTables(lay) + 1, all, NeedAll(programs));
      FreshCosts(lay, ram, all, BootPages(lay, programs));
    }
  }

  lemma FreshCosts(lay: Layout, ram: Ram, res: Result<Ram>, cost: nat)
    requires Fresh(lay, ram) && Costs(lay, ram, res, cost)
    ensures (res.Done? <==> lay.endF - lay.freeF >= cost) && (res.Done? ==> res.value.next - lay.freeF == cost)
  {
  }

  lemma NeedAllIsNat(programs: seq<Program>)
    ensures NeedAll(programs) >= 0
  {
  }

  /** Every process needs a slot besides the one of idle. */
  lemma AllOrTooMany(lay: Layout, k0: Tables, programs: seq<Program>)
    requires Created(lay, k0, 0) && AllFit(programs)
    ensures |programs| < PROCS_MAX ==> Costs(lay, k0.ram, RamOf(CreateAll(lay, k0, 0, programs)), NeedAll(programs))
    ensures |programs| >= PROCS_MAX ==> CreateAll(lay, k0, 0, programs).Panic?
  {
    hide CreateAll, Created, Costs;
    if |programs| < PROCS_MAX {
      AllExact(lay, k0, 0, programs);
    } else if CreateAll(lay, k0, 0, programs).Done? {
      AllCreatedInTurn(lay, k0, 0, programs);
      CreatedTidy(lay, CreateAll(lay, k0, 0, programs).value, |programs|);
    }
  }

  /** kernel_main, step by step. */
  lemma StartSteps(lay: Layout, ram: Ram, programs: seq<Program>, ticksPerMs: nat, armed: bool, hart: Machine)
    requires Fresh(lay, ram) && AllFit(programs) && |hart.regs| == 32
    ensures var res, idle := Start(lay, ram, programs, ticksPerMs, armed, hart), CreateIdle(lay, ram);
      if !armed || idle.Panic? then res.Panic?
      else Created(lay, idle.value, 0) && var all := RamOf(CreateAll(lay, idle.value, 0, programs));
        (res.Done? <==> all.Done?) && (all.Done? ==> res.value.ram == all.value)
  {
    hide CreateIdle, CreateAll, Fresh, Created, Start, Pick;
    StartFails(lay, ram, programs, ticksPerMs, armed, hart);
    if armed && CreateIdle(lay, ram).Done? {
      StartGoesOn(lay, ram, programs, ticksPerMs, hart, CreateIdle(lay, ram).value);
    }
  }

  lemma NeedIsLimited(image: seq<Byte>)
    requires |image| <= USER_SIZE
    ensures Need(image) <= PAGES_PER_USER
    ensures |image| > USER_SIZE - PAGE_SIZE ==> Need(image) == PAGES_PER_USER
  {
  }

  lemma {:induction false} NeedAllIsLimited(programs: seq<Program>)
    requires AllFit(programs)
    ensures NeedAll(programs) <= |programs| * PAGES_PER_USER
    ensures forall i :: 0 <= i < |programs| ==> Need(programs[i].image) <= NeedAll(programs)
  {
    if |programs| > 0 {
      NeedIsLimited(programs[0].image);
      NeedAllIsLimited(programs[1..]);
      forall i | 0 <= i < |programs| ensures Need(programs[i].image) <= NeedAll(programs) {
        if i > 0 { assert programs[i] == programs[1..][i - 1]; }
      }
    }
  }

  /** With free pages for the limit of PagesWithinLimit, booting never panics. */
  lemma StartSucceeds(lay: Layout, ram: Ram, programs: seq<Program>, ticksPerMs: nat, hart: Machine)
    requires Fresh(lay, ram) && AllFit(programs) && |programs| < PROCS_MAX && |hart.regs| == 32
    requires lay.endF - lay.freeF >= Limit(lay, |programs|)
    ensures Start(lay, ram, programs, ticksPerMs, true, hart).Done?
  {
    StartExactly(lay, ram, programs, ticksPerMs, true, hart);
    NeedAllIsLimited(programs);
    hide Start, KernelTables, Fresh;
  }

  /** The 8 MB of free memory that kernel.ld asserts do not suffice for any image that
      fills the user range up to its last page; when they do, StartExactly says. */
  lemma FloorIsNotEnough(lay: Layout, ram: Ram, programs: seq<Program>, ticksPerMs: nat, hart: Machine)
    requires Fresh(lay, ram) && AllFit(programs) && |programs| >= 1 && |hart.regs| == 32
    requires lay.endF - lay.freeF == 2048 && |programs[0].image| > USER_SIZE - PAGE_SIZE
    ensures Start(lay, ram, programs, ticksPerMs, true, hart).Panic?
  {
    StartExactly(lay, ram, programs, ticksPerMs, true, hart);
    NeedIsLimited(programs[0].image);
    NeedAllIsLimited(programs);
    hide Start, KernelTables, Fresh;
  }
}
