/** What user and kernel code can see of memory through the hardware: isolation
    of the processes, the identity map of the kernel, and the flat 8 MB that
    lazy paging presents to each process. */
module FlatView {
  import opened Words
  import opened Sv39
  import opened Pte
  import opened PhysMemory
  import opened PageTables
  import opened Heap
  import opened UserPages

  // ---- translation ----

  /** User code reaches exactly the pages of its own space, with every access. */
  lemma TranslateUser(lay: Layout, r: Ram, s: nat, va: nat, access: Access)
    requires HeapOk(lay, r) && Root(s) in r.book
    ensures Translate(r.mem, r.book[Root(s)], va, access, User) ==
      if InUserRange(va) && s > 0 && UserLabel(s, va) in r.book
      then At(r.book[UserLabel(s, va)] * PAGE_SIZE + va % PAGE_SIZE) else Fault
  {
    hide Walk, HeapOk;
    WalkIsSpaceLeaf(lay, r, s, va);
    HeapIsTree(lay, r);
    if InUserRange(va) && s > 0 && UserLabel(s, va) in r.book {
      TreePlace(lay, r, UserLabel(s, va));
      LeafFields(r.book[UserLabel(s, va)], USER_RWX, lay.attr);
    } else if InKernelRange(lay, va) {
      LeafFields(va / PAGE_SIZE, KERNEL_RWX, lay.attr);
    }
  }

  /** Kernel code sees the kernel range at its own addresses under every root,
      and nothing else: it may run under the page table of any process. */
  lemma KernelIdentity(lay: Layout, r: Ram, s: nat, a: nat, access: Access)
    requires HeapOk(lay, r) && Root(s) in r.book
    ensures Translate(r.mem, r.book[Root(s)], a, access, Super) == if InKernelRange(lay, a) then At(a) else Fault
    ensures InKernelRange(lay, a) ==> Translate(r.mem, r.book[Root(s)], a, access, User) == Fault
  {
    hide Walk, HeapOk;
    WalkIsSpaceLeaf(lay, r, s, a);
    HeapIsTree(lay, r);
    RangesDisjoint(lay, a);
    if InUserRange(a) && s > 0 && UserLabel(s, a) in r.book {
      TreePlace(lay, r, UserLabel(s, a));
      LeafFields(r.book[UserLabel(s, a)], USER_RWX, lay.attr);
    } else if InKernelRange(lay, a) {
      LeafFields(a / PAGE_SIZE, KERNEL_RWX, lay.attr);
    }
  }

  /** The complete walk in numbers. In the 8 MB from 0x1000000 on it finds the pages given
      to the process, with the flags UXWR, in the kernel range each page itself, with XWR;
      A, D and V are set in all of them, and nothing else is mapped. */
  lemma WalkInNumbers(lay: Layout, r: Ram, s: nat, va: nat)
    requires HeapOk(lay, r) && Root(s) in r.book
    ensures var leaf := Walk(r.mem, r.book[Root(s)], va);
      if 0x100_0000 <= va < 0x180_0000 && s > 0 && UserLabel(s, va) in r.book then
        leaf.Leaf? && leaf.level == 0 && leaf.pte == r.book[UserLabel(s, va)] * 1024 + 0xDF + lay.attr
      else if 0x8020_0000 <= va < lay.endF * 4096 then
        leaf.Leaf? && leaf.level == 0 && leaf.pte == va / 4096 * 1024 + 0xCF + lay.attr
      else leaf == NoLeaf
  {
    hide Walk, HeapOk;
    WalkIsSpaceLeaf(lay, r, s, va);
  }

  lemma RangesDisjoint(lay: Layout, a: nat)
    ensures !(InUserRange(a) && InKernelRange(lay, a))
  {
  }

  /** The page that user code of space s reaches at va, if any. */
  function UserFrame(r: Ram, s: nat, va: nat): Xlate
    requires Root(s) in r.book
  {
    match Translate(r.mem, r.book[Root(s)], va, Load, User)
    case Fault => Fault
    case At(pa) => At(pa / PAGE_SIZE)
  }

  /** Isolation: two user-reachable virtual pages, of one or of two processes,
      never share a page of memory; none of these pages holds a table, lies in
      the kernel image or is yet to be handed out. */
  lemma Isolation(lay: Layout, r: Ram, s: nat, va: nat, t: nat, vb: nat)
    requires HeapOk(lay, r) && Root(s) in r.book && Root(t) in r.book
    requires UserFrame(r, s, va).At?
    ensures lay.freeF <= UserFrame(r, s, va).pa < r.next
    ensures UserFrame(r, s, va) == UserFrame(r, t, vb) ==> s == t && va / PAGE_SIZE == vb / PAGE_SIZE
    ensures forall l :: l in r.book && !l.Page? ==> r.book[l] != UserFrame(r, s, va).pa
  {
    hide Translate, HeapOk, HeapUpTo;
    HeapIsTree(lay, r);
    TranslateUser(lay, r, s, va, Load);
    TranslateUser(lay, r, t, vb, Load);
    TreePlace(lay, r, UserLabel(s, va));
    UserVpns(va);
    UserVpns(vb);
    forall l | l in r.book && !l.Page? ensures r.book[l] != UserFrame(r, s, va).pa {
      TreeSlot(lay, r, l, 0, UserLabel(s, va), 0);
    }
    if UserFrame(r, s, va) == UserFrame(r, t, vb) {
      TreeSlot(lay, r, UserLabel(t, vb), 0, UserLabel(s, va), 0);
      SamePage(va, vb);
    }
  }

  // ---- the flat memory of a process ----

  /** Byte `off` of the 8 MB that a process sees: what a load would return, and
      zero where the page has not been touched yet. */
  function FlatByte(mem: Mem, root: nat, off: nat): Byte {
    match Translate(mem, root, USER_BASE + off, Load, User)
    case Fault => 0
    case At(pa) => if pa / 8 < |mem| then RamByte(mem, pa) else 0
  }

  function Flat(mem: Mem, root: nat): (view: seq<Byte>)
    ensures |view| == USER_SIZE
  {
    seq(USER_SIZE, off requires 0 <= off => FlatByte(mem, root, off))
  }

  lemma FlatIsBook(lay: Layout, r: Ram, s: nat, off: nat)
    requires HeapOk(lay, r) && s > 0 && Root(s) in r.book && off < USER_SIZE
    ensures var l, o := UserLabel(s, USER_BASE + off), off % PAGE_SIZE;
      if l in r.book then
        && (r.book[l] * PAGE_SIZE + o) / 8 < |r.mem|
        && FlatByte(r.mem, r.book[Root(s)], off) == RamByte(r.mem, r.book[l] * PAGE_SIZE + o)
      else FlatByte(r.mem, r.book[Root(s)], off) == 0
  {
    hide Translate, HeapOk, Tree, RamByte;
    HeapIsTree(lay, r);
    PageAndOffset(USER_BASE + off, USER_BASE + off);
    TranslateUser(lay, r, s, USER_BASE + off, Load);
    if UserLabel(s, USER_BASE + off) in r.book {
      TreePlace(lay, r, UserLabel(s, USER_BASE + off));
    }
  }

  /** A page handed to one process, empty: no byte that any process sees changes. */
  lemma FaultKeepsFlat(lay: Layout, r: Ram, s: nat, va: Word, k: nat)
    requires CanGive(lay, r, s, va, []) && k > 0 && Root(k) in r.book
    ensures var r' := GivePage(lay, r, s, r.book[Root(s)], va, []).value;
      && HeapOk(lay, r') && Root(k) in r'.book && r'.book[Root(k)] == r.book[Root(k)]
      && Flat(r'.mem, r'.book[Root(k)]) == Flat(r.mem, r.book[Root(k)])
  {
    hide GivePage, FlatByte, HeapOk;
    HeapIsTree(lay, r);
    var r2, r3 := GiveSteps(lay, r, s, va, []);
    var r' := GivePage(lay, r, s, r.book[Root(s)], va, []).value;
    GiveKeepsHeap(lay, r, r2, r3, r', s, va, []);
    forall off: nat | off < USER_SIZE
      ensures FlatByte(r'.mem, r'.book[Root(k)], off) == FlatByte(r.mem, r.book[Root(k)], off)
    {
      GiveFlat(lay, r, r2, r3, r', s, va, [], k, off);
      UntouchedIsZero(lay, r, s, va, off);
    }
    GiveFlat(lay, r, r2, r3, r', s, va, [], k, 0);
  }

  lemma UntouchedIsZero(lay: Layout, r: Ram, s: nat, va: nat, off: nat)
    requires HeapOk(lay, r) && s > 0 && Root(s) in r.book && off < USER_SIZE
    requires InUserRange(va) && va % PAGE_SIZE == 0 && UserLabel(s, va) !in r.book
    ensures 0 <= USER_BASE + off - va < PAGE_SIZE ==> FlatByte(r.mem, r.book[Root(s)], off) == 0
  {
    hide FlatByte, HeapOk;
    FlatIsBook(lay, r, s, off);
    UserVpns(va);
    UserVpns(USER_BASE + off);
    SamePage(va, USER_BASE + off);
    SameUserPage(va, off);
  }

  /** A page handed out with bytes in it: its owner sees the bytes there, and
      everything else stays. */
  lemma GiveFlat(lay: Layout, r: Ram, r2: Ram, r3: Ram, r': Ram, s: nat, va: Word, bytes: seq<Byte>, k: nat, off: nat)
    requires HeapOk(lay, r) && HeapOk(lay, r') && s > 0 && InUserRange(va) && va % PAGE_SIZE == 0
    requires UserLabel(s, va) !in r.book && Given(lay, r, r2, r3, r', s, va, bytes)
    requires k > 0 && Root(k) in r.book && off < USER_SIZE
    ensures Root(k) in r'.book && r'.book[Root(k)] == r.book[Root(k)]
    ensures FlatByte(r'.mem, r'.book[Root(k)], off) ==
      var d := USER_BASE + off - va;
      if k == s && 0 <= d < PAGE_SIZE then (if d < |bytes| then bytes[d] else 0)
      else FlatByte(r.mem, r.book[Root(k)], off)
  {
    hide FlatByte, HeapOk, Tree, CopyBytes, WordEffect, RamByte;
    var l, o := UserLabel(k, USER_BASE + off), off % PAGE_SIZE;
    HeapIsTree(lay, r);
    FlatIsBook(lay, r, k, off);
    FlatIsBook(lay, r', k, off);
    UserVpns(va);
    UserVpns(USER_BASE + off);
    SamePage(va, USER_BASE + off);
    SameUserPage(va, off);
    if l in r.book {
      GiveKeepsByte(lay, r, r2, r3, r', s, va, bytes, l, o);
    } else if l == UserLabel(s, va) {
      GiveFillsPage(lay, r, r2, r3, r', s, va, bytes, o);
    }
  }

  lemma GiveKeepsByte(lay: Layout, r: Ram, r2: Ram, r3: Ram, r': Ram, s: nat, va: Word, bytes: seq<Byte>, l: Label, o: nat)
    requires Tree(lay, r) && Given(lay, r, r2, r3, r', s, va, bytes)
    requires l in r.book && l.Page? && l != UserLabel(s, va) && o < PAGE_SIZE
    ensures l in r'.book && r'.book[l] == r.book[l]
    ensures (r.book[l] * PAGE_SIZE + o) / 8 < |r.mem| == |r'.mem|
    ensures RamByte(r'.mem, r.book[l] * PAGE_SIZE + o) == RamByte(r.mem, r.book[l] * PAGE_SIZE + o)
  {
    hide Tree, CopyBytes, WordEffect, ByteOf, Given;
    PageWord(r.book[l], o);
    GiveKeepsWord(lay, r, r2, r3, r', s, va, bytes, l, o / 8);
  }

  lemma SameUserPage(va: nat, off: nat)
    requires InUserRange(va) && va % PAGE_SIZE == 0
    ensures 0 <= USER_BASE + off - va < PAGE_SIZE <==> va / PAGE_SIZE == (USER_BASE + off) / PAGE_SIZE
    ensures 0 <= USER_BASE + off - va < PAGE_SIZE ==> USER_BASE + off - va == off % PAGE_SIZE
  {
  }

  lemma PageWord(f: nat, o: nat)
    requires o < PAGE_SIZE
    ensures (f * PAGE_SIZE + o) / 8 == f * 512 + o / 8 && o / 8 < 512
  {
  }

  /** After a page has been handed out, every access to it succeeds. */
  lemma GiveMakesProgress(lay: Layout, r: Ram, s: nat, va: Word, bytes: seq<Byte>, a: nat, access: Access)
    requires CanGive(lay, r, s, va, bytes) && a / PAGE_SIZE == va / PAGE_SIZE
    ensures Translate(r.mem, r.book[Root(s)], a, access, User) == Fault
    ensures var r' := GivePage(lay, r, s, r.book[Root(s)], va, bytes).value;
      && HeapOk(lay, r') && Root(s) in r'.book
      && Translate(r'.mem, r'.book[Root(s)], a, access, User) == At(r.next * PAGE_SIZE + a % PAGE_SIZE)
  {
    hide GivePage, Translate, HeapOk, Vpn;
    HeapIsTree(lay, r);
    var r2, r3 := GiveSteps(lay, r, s, va, bytes);
    var r' := GivePage(lay, r, s, r.book[Root(s)], va, bytes).value;
    GiveKeepsHeap(lay, r, r2, r3, r', s, va, bytes);
    GiveExtendsBook(lay, r, r2, r3, r', s, va, bytes);
    GivenFrame(lay, r, r2, r3, r', s, va, bytes);
    SameLabel(s, va, a);
    hide Given, UserLabel;
    TranslateUser(lay, r, s, a, access);
    TranslateUser(lay, r', s, a, access);
  }

  lemma GivenFrame(lay: Layout, r: Ram, r2: Ram, r3: Ram, r': Ram, s: nat, va: Word, bytes: seq<Byte>)
    requires Given(lay, r, r2, r3, r', s, va, bytes) && Root(s) in r.book
    ensures UserLabel(s, va) in r'.book && r'.book[UserLabel(s, va)] == r.next
    ensures Root(s) in r'.book && r'.book[Root(s)] == r.book[Root(s)]
  {
    hide Tree, WordEffect, CopyBytes;
  }

  lemma SameLabel(s: nat, va: nat, a: nat)
    requires InUserRange(va) && a / PAGE_SIZE == va / PAGE_SIZE
    ensures InUserRange(a) && UserLabel(s, a) == UserLabel(s, va)
  {
    UserVpns(va);
    SamePage(va, a);
  }

  /** A user store changes the one byte of the one process, keeps the heap, and
      changes no translation of any space. */
  lemma StoreIsLocal(lay: Layout, r: Ram, s: nat, va: nat, pa: nat, b: Byte)
    requires HeapOk(lay, r) && Root(s) in r.book
    requires Translate(r.mem, r.book[Root(s)], va, Store, User) == At(pa)
    ensures InUserRange(va) && s > 0 && UserLabel(s, va) in r.book && pa / 8 < |r.mem|
    ensures HeapOk(lay, r.(mem := StoreByte(r.mem, pa, b)))
  {
    hide HeapOk, Translate, Tree, StoreByte;
    HeapIsTree(lay, r);
    TranslateUser(lay, r, s, va, Store);
    var l := UserLabel(s, va);
    TreePlace(lay, r, l);
    PageWord(r.book[l], va % PAGE_SIZE);
    StoredWord(r.mem, pa, b);
    UserWordKeepsHeap(lay, r, l, va % PAGE_SIZE / 8, StoreByte(r.mem, pa, b)[pa / 8]);
  }

  lemma StoredWord(mem: Mem, pa: nat, b: Byte)
    requires pa / 8 < |mem|
    ensures StoreByte(mem, pa, b) == mem[pa / 8 := StoreByte(mem, pa, b)[pa / 8]]
  {
  }

  /** Whatever a user page is filled with, the heap stays what it is. */
  lemma UserWordKeepsHeap(lay: Layout, r: Ram, l: Label, i: nat, w: Word)
    requires HeapOk(lay, r) && l in r.book && l.Page? && i < 512 && r.book[l] * 512 + i < |r.mem|
    ensures HeapOk(lay, r.(mem := r.mem[r.book[l] * 512 + i := w]))
  {
    LeafKeepsTree(lay, r, l, i, w);
    hide Tree;
    var r' := r.(mem := r.mem[r.book[l] * 512 + i := w]);
    forall k, j | k in r'.book && k.Low? && 0 <= j < 512 ensures LeafOk(lay, r', lay.endF, k, j) {
      assert LeafOk(lay, r, lay.endF, k, j);
      TreeSlot(lay, r, l, i, k, j);
    }
  }

  lemma StoreKeepsWalks(lay: Layout, r: Ram, s: nat, va: nat, pa: nat, b: Byte, k: nat, a: nat)
    requires HeapOk(lay, r) && Root(s) in r.book && Root(k) in r.book
    requires Translate(r.mem, r.book[Root(s)], va, Store, User) == At(pa)
    ensures pa / 8 < |r.mem|
    ensures Walk(StoreByte(r.mem, pa, b), r.book[Root(k)], a) == Walk(r.mem, r.book[Root(k)], a)
  {
    hide HeapOk, Translate, StoreByte, Walk;
    StoreIsLocal(lay, r, s, va, pa, b);
    WalkIsSpaceLeaf(lay, r, k, a);
    WalkIsSpaceLeaf(lay, r.(mem := StoreByte(r.mem, pa, b)), k, a);
  }

  lemma StoreUpdatesFlat(lay: Layout, r: Ram, s: nat, va: nat, pa: nat, b: Byte, k: nat)
    requires HeapOk(lay, r) && Root(s) in r.book && k > 0 && Root(k) in r.book
    requires Translate(r.mem, r.book[Root(s)], va, Store, User) == At(pa)
    ensures pa / 8 < |r.mem| && InUserRange(va)
    ensures Flat(StoreByte(r.mem, pa, b), r.book[Root(k)]) ==
      if k == s then Flat(r.mem, r.book[Root(k)])[va - USER_BASE := b] else Flat(r.mem, r.book[Root(k)])
  {
    hide HeapOk, Translate, StoreByte, FlatByte;
    StoreIsLocal(lay, r, s, va, pa, b);
    forall off: nat | off < USER_SIZE
      ensures FlatByte(StoreByte(r.mem, pa, b), r.book[Root(k)], off) ==
        if k == s && off == va - USER_BASE then b else FlatByte(r.mem, r.book[Root(k)], off)
    {
      StoreFlatByte(lay, r, s, va, pa, b, k, off);
    }
  }

  lemma StoreFlatByte(lay: Layout, r: Ram, s: nat, va: nat, pa: nat, b: Byte, k: nat, off: nat)
    requires HeapOk(lay, r) && Root(s) in r.book && k > 0 && Root(k) in r.book && off < USER_SIZE
    requires Translate(r.mem, r.book[Root(s)], va, Store, User) == At(pa)
    ensures pa / 8 < |r.mem| && InUserRange(va)
    ensures FlatByte(StoreByte(r.mem, pa, b), r.book[Root(k)], off) ==
      if k == s && off == va - USER_BASE then b else FlatByte(r.mem, r.book[Root(k)], off)
  {
    hide HeapOk, Translate, StoreByte, FlatByte, RamByte;
    HeapIsTree(lay, r);
    StoreIsLocal(lay, r, s, va, pa, b);
    TranslateUser(lay, r, s, va, Store);
    var l, k', r' := UserLabel(s, va), UserLabel(k, USER_BASE + off), r.(mem := StoreByte(r.mem, pa, b));
    FlatIsBook(lay, r, k, off);
    FlatIsBook(lay, r', k, off);
    UserVpns(va);
    UserVpns(USER_BASE + off);
    SamePage(va, USER_BASE + off);
    if k' in r.book {
      TreeSlot(lay, r, l, 0, k', 0);
      RamByteAfterStore(r.mem, pa, b, r.book[k'] * PAGE_SIZE + off % PAGE_SIZE);
      PageAndOffset(va, USER_BASE + off);
    }
  }

  lemma PageAndOffset(a: nat, b: nat)
    ensures a == b <==> a / PAGE_SIZE == b / PAGE_SIZE && a % PAGE_SIZE == b % PAGE_SIZE
    ensures (b - USER_BASE) % PAGE_SIZE == b % PAGE_SIZE
  {
  }
}
