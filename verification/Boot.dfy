/** From power-on to the first user instruction: creating the idle process and the
    user processes, and the first call of yield. */
module Boot {
  import opened Words
  import opened Sv39
  import opened Pte
  import opened PhysMemory
  import opened PageTables
  import opened Heap
  import opened UserPages
  import opened FlatView
  import opened AddressSpaces
  import opened Budget
  import opened TrapFrame
  import opened Scheduler
  import opened Machine
  import opened Invariant
  import opened PrivateMachines

  /** The kernel's variables while it creates processes; template 0 is a NULL
      kernel_page_table. */
  datatype Tables = Tables(ram: Ram, template: nat, slots: Slots)

  ghost predicate TablesOk(lay: Layout, k: Tables) {
    && |k.slots| == PROCS_MAX
    && if k.template == 0 then Fresh(lay, k.ram)
       else HeapOk(lay, k.ram) && Root(0) in k.ram.book && k.ram.book[Root(0)] == k.template
  }

  /** The first UNUSED slot from slot i on. */
  function FreeSlot(slots: Slots, i: nat): (k: nat)
    requires i <= |slots|
    ensures i <= k <= |slots|
    ensures k < |slots| ==> slots[k].state == Unused
    ensures forall j :: i <= j < k ==> slots[j].state != Unused
    decreases |slots| - i
  {
    if i == |slots| || slots[i].state == Unused then i else FreeSlot(slots, i + 1)
  }

  /** alloc_process; `call` is where the pushed context will begin. */
  function AllocProcess(lay: Layout, k: Tables, call: Call): Result<(Tables, nat)>
    requires TablesOk(lay, k)
  {
    var i := FreeSlot(k.slots, 0);
    if i == |k.slots| then Panic
    else
      var (ram, template, root) :- TableFor(lay, k.ram, k.template, i + 1);
      Done((Tables(ram, template, k.slots[i := Slot(i + 1, Runnable, 0, root, 0, k.slots[i].frame, call)]), i))
  }

  /** The image fits the user range, and the new process has nothing there yet. */
  ghost predicate CanCreate(lay: Layout, k: Tables, image: seq<Byte>) {
    && TablesOk(lay, k) && |image| <= USER_SIZE
    && (AllocProcess(lay, k, Entry).Done? ==>
        var (k1, i) := AllocProcess(lay, k, Entry).value; Loading(lay, k1.ram, i + 1, k1.slots[i].root, image, 0))
  }

  /** create_process2. */
  function CreateProcess(lay: Layout, k: Tables, image: seq<Byte>, arg: Word): Result<Tables>
    requires CanCreate(lay, k, image)
  {
    var (k1, i) :- AllocProcess(lay, k, Entry);
    var ram :- LoadImage(lay, k1.ram, i + 1, k1.slots[i].root, image, 0);
    Done(k1.(ram := ram, slots := k1.slots[i := k1.slots[i].(arg := arg)]))
  }

  /** The idle process and n user processes exist, in the first slots. */
  ghost predicate Created(lay: Layout, k: Tables, n: nat) {
    && TablesOk(lay, k) && k.template != 0 && n < PROCS_MAX
    && Counted(lay, k.ram) && AllInUse(k.ram.book, n)
    && AllCreated(k, n)
  }

  ghost predicate AllCreated(k: Tables, n: nat) {
    |k.slots| == PROCS_MAX && forall i :: 0 <= i < PROCS_MAX ==> SlotCreated(k, n, i)
  }

  ghost predicate SlotCreated(k: Tables, n: nat, i: nat)
    requires i < |k.slots|
  {
    && SlotShape(k.slots, n, i) && |k.slots[i].frame| == FRAME_WORDS
    && (i <= n ==> k.slots[i].state == Runnable && Root(i + 1) in k.ram.book && k.slots[i].root == k.ram.book[Root(i + 1)])
    && (1 <= i <= n ==> k.slots[i].call == Entry)
  }

  /** procs[] as the C runtime leaves it. */
  function BootSlots(): (slots: Slots)
    ensures |slots| == PROCS_MAX && forall i :: 0 <= i < PROCS_MAX ==> slots[i] == UnusedSlot()
  {
    var s := UnusedSlot();
    [s, s, s, s, s, s, s, s]
  }

  /** init_process_management: idle takes the first slot and gets pid 0. */
  function CreateIdle(lay: Layout, ram: Ram): Result<Tables>
    requires Fresh(lay, ram)
  {
    var (k, i) :- AllocProcess(lay, Tables(ram, 0, BootSlots()), Entry);
    Done(k.(slots := k.slots[i := k.slots[i].(pid := 0)]))
  }

  /** A new process's space is its root only; all else stays. */
  lemma CopyForKeeps(lay: Layout, r: Ram, template: nat, s: nat)
    requires HeapOk(lay, r) && r.book[Root(0)] == template && Counted(lay, r) && s > 0 && Root(s) !in r.book
    requires CopyFor(lay, r, template, s).Done?
    ensures var (r', t, root) := CopyFor(lay, r, template, s).value;
      && HeapOk(lay, r') && Counted(lay, r') && t == template && root == r.next && r'.next == r.next + 1
      && r'.book == r.book[Root(s) := root] && Root(0) in r'.book
      && SameBelow(r.mem, r'.mem, r.next)
  {
    HeapHasTemplate(lay, r);
    hide HeapOk, NewRoot;
    NewRootKeepsHeap(lay, r, s);
    NewRootCounted(lay, r, s);
    var r' := NewRoot(lay, r, s, template).value.0;
    HeapIsTree(lay, r);
    HeapIsTree(lay, r');
  }

  lemma FirstTable(lay: Layout, ram: Ram, s: nat)
    requires Fresh(lay, ram) && s > 0 && TableFor(lay, ram, 0, s).Done?
    ensures var (r', t, root) := TableFor(lay, ram, 0, s).value;
      && HeapOk(lay, r') && Counted(lay, r') && t > 0
      && Root(0) in r'.book && r'.book[Root(0)] == t && Root(s) in r'.book && r'.book[Root(s)] == root
      && forall l :: l in r'.book ==> l.s == 0 || l == Root(s)
  {
    TemplateIsHeap(lay, ram);
    var (r1, t) := NewTemplate(lay, ram).value;
    hide NewTemplate, HeapOk, Fresh, CopyFor;
    HeapHasTemplate(lay, r1);
    TemplateLabels(lay, r1);
    CopyForKeeps(lay, r1, t, s);
  }

  lemma IdleIsFirst(lay: Layout, ram: Ram)
    requires Fresh(lay, ram) && CreateIdle(lay, ram).Done?
    ensures TableFor(lay, ram, 0, 1).Done?
    ensures var (r', t, root) := TableFor(lay, ram, 0, 1).value;
      CreateIdle(lay, ram).value == Tables(r', t, BootSlots()[0 := Slot(0, Runnable, 0, root, 0, UnusedSlot().frame, Entry)])
  {
    hide TableFor, Fresh, FreeSlot, BootSlots, UnusedSlot;
    assert BootSlots()[0] == UnusedSlot();
  }

  lemma IdleCreated(lay: Layout, ram: Ram)
    requires Fresh(lay, ram) && CreateIdle(lay, ram).Done?
    ensures Created(lay, CreateIdle(lay, ram).value, 0)
  {
    hide TableFor, HeapOk, Fresh, CreateIdle, BootSlots, UnusedSlot, SlotCreated;
    IdleIsFirst(lay, ram);
    FirstTable(lay, ram, 1);
    var (r', t, root) := TableFor(lay, ram, 0, 1).value;
    FirstSlots(CreateIdle(lay, ram).value, root);
    forall l | l in r'.book ensures InUse(l, 0) { }
  }

  lemma FirstSlots(k: Tables, root: nat)
    requires k.slots == BootSlots()[0 := Slot(0, Runnable, 0, root, 0, UnusedSlot().frame, Entry)]
    requires Root(1) in k.ram.book && k.ram.book[Root(1)] == root
    ensures AllCreated(k, 0)
  {
    hide BootSlots, UnusedSlot;
  }

  lemma NewRootCounted(lay: Layout, r: Ram, s: nat)
    requires HeapOk(lay, r) && Counted(lay, r) && s > 0 && Root(s) !in r.book
    requires (r.book[Root(0)] + 1) * 512 <= |r.mem| && NewRoot(lay, r, s, r.book[Root(0)]).Done?
    ensures Counted(lay, NewRoot(lay, r, s, r.book[Root(0)]).value.0)
  {
    hide HeapOk, CopyPage;
  }

  lemma HeapHasTemplate(lay: Layout, r: Ram)
    requires HeapOk(lay, r)
    ensures Root(0) in r.book && r.book[Root(0)] > 0 && (r.book[Root(0)] + 1) * 512 <= |r.mem|
  {
    hide Tree;
    TreePlace(lay, r, Root(0));
    TreeIsSized(lay, r);
  }

  /** Every label belongs to a space whose root is in the book. */
  lemma LabelHasRoot(lay: Layout, r: Ram, l: Label)
    requires Tree(lay, r) && l in r.book
    ensures Root(l.s) in r.book
  {
    assert Parent(l) in r.book && Parent(Parent(l)) in r.book && Parent(Parent(Parent(l))) in r.book;
  }

  lemma TemplateLabels(lay: Layout, r: Ram)
    requires HeapOk(lay, r) && forall l :: l in r.book && l.Root? ==> l == Root(0)
    ensures forall l :: l in r.book ==> l.s == 0
  {
    forall l | l in r.book ensures l.s == 0 { LabelHasRoot(lay, r, l); }
  }

  // ---- creating user processes ----

  /** The slot that the next process gets. */
  lemma NextFree(lay: Layout, k: Tables, n: nat)
    requires Created(lay, k, n)
    ensures FreeSlot(k.slots, 0) == n + 1
  {
    hide HeapOk;
    var i := FreeSlot(k.slots, 0);
    if i < PROCS_MAX { assert SlotCreated(k, n, i); }
    if n + 1 < PROCS_MAX { assert SlotCreated(k, n, n + 1); }
    forall j | 0 <= j < n + 1 ensures k.slots[j].state != Unused { assert SlotCreated(k, n, j); }
  }

  /** A user process's space before its image is loaded: a root, and nothing mapped. */
  ghost predicate Allocated(lay: Layout, k: Tables, k1: Tables, n: nat, root: nat) {
    hide HeapOk, AllVacant, SameBelow, Counted;
    && n + 1 < PROCS_MAX == |k.slots|
    && HeapOk(lay, k1.ram) && Counted(lay, k1.ram) && AllVacant(k1.ram, n + 2)
    && k1.ram.next == k.ram.next + 1
    && SameBelow(k.ram.mem, k1.ram.mem, k.ram.next)
    && k1.ram.book == k.ram.book[Root(n + 2) := root] && Root(n + 2) !in k.ram.book
    && k1.slots == k.slots[n + 1 := Slot(n + 2, Runnable, 0, root, 0, k.slots[n + 1].frame, Entry)]
    && k1.template == k.template
  }

  lemma AllocatedIsEmpty(lay: Layout, k: Tables, n: nat) returns (k1: Tables, root: nat)
    requires Created(lay, k, n) && AllocProcess(lay, k, Entry).Done?
    ensures AllocProcess(lay, k, Entry).value == (k1, n + 1) && Allocated(lay, k, k1, n, root)
  {
    NextFree(lay, k, n);
    hide HeapOk, CopyFor, FreeSlot, SlotCreated, Tree;
    RootIsNew(k.ram.book, n);
    NoLabelsYet(lay, k.ram, n + 2);
    CopyForKeeps(lay, k.ram, k.template, n + 2);
    k1 := AllocProcess(lay, k, Entry).value.0;
    root := k1.slots[n + 1].root;
  }

  lemma RootIsNew(book: map<Label, nat>, n: nat)
    requires AllInUse(book, n)
    ensures Root(n + 2) !in book
  {
    var l := Root(n + 2);
    assert !InUse(l, n);
  }

  /** Memory below page f is the same. */
  ghost predicate SameBelow(m: Mem, m': Mem, f: nat) {
    f * 512 <= |m| && |m| == |m'| && forall w :: 0 <= w < f * 512 ==> m'[w] == m[w]
  }

  ghost predicate AllVacant(r: Ram, s: nat) {
    forall o :: 0 <= o < USER_SIZE ==> Vacant(r, s, o)
  }

  lemma NoLabelsYet(lay: Layout, r: Ram, s: nat)
    requires HeapOk(lay, r) && Root(s) !in r.book
    ensures AllVacant(r, s)
  {
    forall o | 0 <= o < USER_SIZE ensures Vacant(r, s, o) {
      if UserLabel(s, USER_BASE + o) in r.book { LabelHasRoot(lay, r, UserLabel(s, USER_BASE + o)); }
    }
  }

  lemma LoadIsReady(lay: Layout, k: Tables, n: nat, image: seq<Byte>)
    requires Created(lay, k, n) && |image| <= USER_SIZE
    ensures CanCreate(lay, k, image)
  {
    hide AllocProcess, Created, HeapOk, Vacant, Loading;
    CreatedIsOk(lay, k, n);
    if AllocProcess(lay, k, Entry).Done? {
      var k1, root := AllocatedIsEmpty(lay, k, n);
      AllocatedLoads(lay, k, k1, n, root, image);
    }
  }

  lemma CreatedIsOk(lay: Layout, k: Tables, n: nat)
    requires Created(lay, k, n)
    ensures TablesOk(lay, k)
  {
  }

  lemma AllocatedLoads(lay: Layout, k: Tables, k1: Tables, n: nat, root: nat, image: seq<Byte>)
    requires Allocated(lay, k, k1, n, root) && |image| <= USER_SIZE
    ensures Loading(lay, k1.ram, n + 2, root, image, 0)
  {
    hide HeapOk, Counted, SameBelow, Vacant;
  }

  /** Loading an image: roots stay, and the new labels belong to the owner. */
  lemma {:induction false} LoadImageBook(lay: Layout, r: Ram, s: nat, root: nat, image: seq<Byte>, off: nat, n: nat)
    requires Loading(lay, r, s, root, image, off) && LoadImage(lay, r, s, root, image, off).Done?
    requires AllInUse(r.book, n) && 2 <= s < 2 + n
    ensures var r' := LoadImage(lay, r, s, root, image, off).value;
      && AllInUse(r'.book, n)
      && forall l :: l in r.book && l.Root? ==> l in r'.book && r'.book[l] == r.book[l]
    decreases |image| - off
  {
    hide GivePage, Given, Tree, Owns, AllInUse;
    if off < |image| {
      LoadReady(lay, r, s, root, image, off);
      LoadStep(lay, r, s, root, image, off);
      var va, r1 := USER_BASE + off, GivePage(lay, r, s, root, USER_BASE + off, Chunk(image, off)).value;
      var r2, r3 := LoadGiven(lay, r, s, root, image, off);
      GiveExtendsBook(lay, r, r2, r3, r1, s, va, Chunk(image, off));
      GiveInUse(lay, r, r2, r3, r1, s, va, Chunk(image, off), n);
      LoadImageBook(lay, r1, s, root, image, off + PAGE_SIZE, n);
    }
  }

  lemma MoreInUse(book: map<Label, nat>, n: nat, root: nat)
    requires AllInUse(book, n)
    ensures AllInUse(book[Root(n + 2) := root], n + 1)
  {
    forall l | l in book ensures InUse(l, n + 1) { assert InUse(l, n); }
  }

  /** The steps of create_process2 from k to k2: an empty space in k1, then the image. */
  ghost predicate Steps(lay: Layout, k: Tables, k1: Tables, k2: Tables, n: nat, root: nat, image: seq<Byte>, arg: Word) {
    hide Loading, LoadImage;
    && Allocated(lay, k, k1, n, root)
    && Loading(lay, k1.ram, n + 2, root, image, 0) && LoadImage(lay, k1.ram, n + 2, root, image, 0) == Done(k2.ram)
    && k2 == k1.(ram := k2.ram, slots := k1.slots[n + 1 := k1.slots[n + 1].(arg := arg)])
  }

  lemma CreatedPieces(lay: Layout, k: Tables, n: nat, image: seq<Byte>, arg: Word) returns (k1: Tables, root: nat)
    requires Created(lay, k, n) && CanCreate(lay, k, image) && CreateProcess(lay, k, image, arg).Done?
    ensures n + 1 < PROCS_MAX && Steps(lay, k, k1, CreateProcess(lay, k, image, arg).value, n, root, image, arg)
  {
    hide AllocProcess, LoadImage, Loading, HeapOk, Counted, AllVacant, SameBelow, AllCreated, AllInUse, Fresh;
    k1, root := AllocatedIsEmpty(lay, k, n);
  }

  /** create_process2 adds one user process. */
  lemma ProcessCreated(lay: Layout, k: Tables, n: nat, image: seq<Byte>, arg: Word)
    requires Created(lay, k, n) && CanCreate(lay, k, image) && CreateProcess(lay, k, image, arg).Done?
    ensures Created(lay, CreateProcess(lay, k, image, arg).value, n + 1)
  {
    var k1, root := CreatedPieces(lay, k, n, image, arg);
    hide CanCreate, CreateProcess, Steps, Created;
    CreatedTables(lay, k, k1, CreateProcess(lay, k, image, arg).value, n, root, image, arg);
  }

  lemma CreatedTables(lay: Layout, k: Tables, k1: Tables, k2: Tables, n: nat, root: nat, image: seq<Byte>, arg: Word)
    requires Created(lay, k, n) && n + 1 < PROCS_MAX && Steps(lay, k, k1, k2, n, root, image, arg)
    ensures Created(lay, k2, n + 1)
  {
    hide LoadImage, Loading, HeapOk, Counted, AllCreated, AllInUse, Fresh, AllVacant, SameBelow;
    MoreInUse(k.ram.book, n, root);
    LoadedTables(lay, k1.ram, k2.ram, n + 2, root, image, n + 1);
    SlotsStayCreated(k, k1, k2, n, root, arg);
  }

  lemma LoadedTables(lay: Layout, r: Ram, r': Ram, s: nat, root: nat, image: seq<Byte>, n: nat)
    requires Loading(lay, r, s, root, image, 0) && LoadImage(lay, r, s, root, image, 0) == Done(r')
    requires AllInUse(r.book, n) && 2 <= s < 2 + n
    ensures HeapOk(lay, r') && Counted(lay, r') && AllInUse(r'.book, n)
    ensures forall l :: l in r.book && l.Root? ==> l in r'.book && r'.book[l] == r.book[l]
  {
    hide HeapOk, Loading, LoadImage, AllInUse;
    LoadImageBook(lay, r, s, root, image, 0, n);
  }

  lemma SlotsStayCreated(k: Tables, k1: Tables, k2: Tables, n: nat, root: nat, arg: Word)
    requires n + 1 < PROCS_MAX && AllCreated(k, n)
    requires k2.slots == k.slots[n + 1 := Slot(n + 2, Runnable, 0, root, arg, k.slots[n + 1].frame, Entry)]
    requires k1.ram.book == k.ram.book[Root(n + 2) := root] && Root(n + 2) !in k.ram.book
    requires forall l :: l in k1.ram.book && l.Root? ==> l in k2.ram.book && k2.ram.book[l] == k1.ram.book[l]
    ensures AllCreated(k2, n + 1)
  {
    var users := n + 1;
    forall i | 0 <= i < PROCS_MAX ensures SlotCreated(k2, users, i) {
      assert SlotCreated(k, n, i) && SlotCreated(k, n, users);
    }
  }
}
