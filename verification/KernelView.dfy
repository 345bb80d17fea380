/** How the kernel reaches its own memory while it changes the tables that it is
    reached through: the kernel half of every space stays mapped to itself, whatever
    stage page allocation and map_page are at. */
module KernelView {
  import opened Words
  import opened Sv39
  import opened Pte
  import opened PhysMemory
  import opened PageTables
  import opened Heap

  /** How the processor translates the kernel's addresses: not at all until the first
      yield, then by the tables of satp and the translation cache. */
  datatype Mmu = Bare | Paged(satp: nat, tlb: map<nat, Leaf>)

  /** An access of the kernel; Fault is a page fault in supervisor mode. */
  function Route(mmu: Mmu, mem: Mem, a: nat, access: Access): Xlate {
    match mmu
    case Bare => At(a)
    case Paged(satp, tlb) =>
      FromLeaf(if a / PAGE_SIZE in tlb then tlb[a / PAGE_SIZE] else Walk(mem, satp, a), a, access, Super)
  }

  /** The walk ends in the leaf that maps a kernel address to itself. */
  ghost predicate IsKernelLeaf(lay: Layout, a: nat, leaf: Leaf) {
    leaf.Leaf? && leaf.level == 0 && leaf.pte == LeafPte(a / PAGE_SIZE, KERNEL_RWX, lay.attr)
  }

  /** With this memory, and none of it cached, the kernel reaches all of its range. */
  ghost predicate Sees(lay: Layout, mmu: Mmu, mem: Mem) {
    mmu.Paged? ==> forall a: nat :: InKernelRange(lay, a) ==> IsKernelLeaf(lay, a, Walk(mem, mmu.satp, a))
  }

  /** What is cached of the kernel range says the same. */
  ghost predicate Cached(lay: Layout, mmu: Mmu) {
    mmu.Paged? ==> forall page :: page in mmu.tlb && BASE_F <= page < lay.endF ==>
      IsKernelLeaf(lay, page * PAGE_SIZE, mmu.tlb[page])
  }

  /** Then every access of the kernel, of any kind, goes where it seems to go. */
  lemma SeesAt(lay: Layout, mmu: Mmu, mem: Mem, a: nat, access: Access)
    requires lay.Ok() && Sees(lay, mmu, mem) && Cached(lay, mmu) && InKernelRange(lay, a)
    ensures Route(mmu, mem, a, access) == At(a)
  {
    if mmu.Paged? {
      LeafFields(a / PAGE_SIZE, KERNEL_RWX, lay.attr);
      assert a / PAGE_SIZE * PAGE_SIZE / PAGE_SIZE == a / PAGE_SIZE;
      hide Walk, LeafPte;
      assert IsKernelLeaf(lay, a, if a / PAGE_SIZE in mmu.tlb then mmu.tlb[a / PAGE_SIZE] else Walk(mem, mmu.satp, a));
    }
  }

  // ---- the kernel half of a heap ----

  ghost predicate KernelEntryOk(lay: Layout, r: Ram, f: nat) {
    && KernelLow(f) in r.book && r.book[KernelLow(f)] * 512 + f % 512 < |r.mem|
    && r.mem[r.book[KernelLow(f)] * 512 + f % 512] == LeafPte(f, KERNEL_RWX, lay.attr)
  }

  /** Upper tables are in order, and every kernel page has its entry. Nothing is said
      of the entries of user pages. */
  ghost predicate KernelHalf(lay: Layout, r: Ram) {
    Tree(lay, r) && forall f :: BASE_F <= f < lay.endF ==> KernelEntryOk(lay, r, f)
  }

  /** satp holds the root of some space. */
  ghost predicate Mapped(lay: Layout, mmu: Mmu, r: Ram) {
    mmu.Paged? ==> KernelHalf(lay, r) && exists s :: Root(s) in r.book && r.book[Root(s)] == mmu.satp
  }

  lemma HeapHasHalf(lay: Layout, r: Ram)
    requires HeapOk(lay, r)
    ensures KernelHalf(lay, r)
  {
    HeapIsTree(lay, r);
    hide Tree, LeafPte;
    forall f | BASE_F <= f < lay.endF ensures KernelEntryOk(lay, r, f) {
      KernelPage(lay, f);
      assert KernelLow(f) in r.book;
      HeapLeaf(lay, r, KernelLow(f), f % 512);
    }
  }

  lemma KernelPage(lay: Layout, f: nat)
    requires lay.Ok() && BASE_F <= f < lay.endF
    ensures KERNEL_VPN2 * 0x4_0000 + f / 512 % 512 * 512 + f % 512 == f
  {
  }

  lemma HalfSees(lay: Layout, r: Ram, s: nat, a: nat)
    requires KernelHalf(lay, r) && Root(s) in r.book && InKernelRange(lay, a)
    ensures IsKernelLeaf(lay, a, Walk(r.mem, r.book[Root(s)], a))
  {
    hide Tree, LeafPte, Walk, Vpn;
    HalfIsTree(lay, r);
    WalkIsBookWalk(lay, r, Root(s), a);
    KernelVpns(lay, a);
    KernelLeafRead(lay, a);
    KernelPageIndex(lay, a);
    assert KernelEntryOk(lay, r, a / PAGE_SIZE);
  }

  lemma KernelPageIndex(lay: Layout, a: nat)
    requires lay.Ok() && InKernelRange(lay, a)
    ensures a < 0x40_0000_0000 && Canonical(a) && Vpn(a, 0) == a / PAGE_SIZE % 512 && BASE_F <= a / PAGE_SIZE < lay.endF
  {
  }

  lemma HalfIsTree(lay: Layout, r: Ram)
    requires KernelHalf(lay, r)
    ensures Tree(lay, r) && lay.Ok()
  {
  }

  /** Whatever the stage, and whoever's root is in satp. */
  lemma MappedSees(lay: Layout, mmu: Mmu, r: Ram)
    requires Mapped(lay, mmu, r)
    ensures Sees(lay, mmu, r.mem)
  {
    if mmu.Paged? {
      var s :| Root(s) in r.book && r.book[Root(s)] == mmu.satp;
      hide KernelHalf, Walk;
      forall a: nat | InKernelRange(lay, a) ensures IsKernelLeaf(lay, a, Walk(r.mem, mmu.satp, a)) {
        HalfSees(lay, r, s, a);
      }
    }
  }

  /** The processor may fill the cache at any stage. */
  lemma FillKeepsCached(lay: Layout, satp: nat, tlb: map<nat, Leaf>, mem: Mem, page: nat)
    requires Sees(lay, Paged(satp, tlb), mem) && Cached(lay, Paged(satp, tlb))
    ensures Cached(lay, Paged(satp, tlb[page := Walk(mem, satp, page * PAGE_SIZE)]))
  {
    hide Walk, LeafPte;
    if BASE_F <= page < lay.endF {
      assert InKernelRange(lay, page * PAGE_SIZE);
      assert IsKernelLeaf(lay, page * PAGE_SIZE, Walk(mem, satp, page * PAGE_SIZE));
    }
  }

  // ---- the stages ----

  /** Memory that was handed out before is as in r. */
  ghost predicate Agrees(mem: Mem, r: Ram) {
    r.next * 512 <= |r.mem| == |mem| && forall w :: 0 <= w < r.next * 512 ==> mem[w] == r.mem[w]
  }

  /** A page being cleared or filled: no byte of it matters. */
  lemma FreshKeepsMapped(lay: Layout, mmu: Mmu, r: Ram, r': Ram)
    requires Mapped(lay, mmu, r) && Agrees(r'.mem, r) && Sized(lay, r') && r'.book == r.book && r'.next >= r.next
    ensures Mapped(lay, mmu, r')
  {
    if mmu.Paged? {
      FreshKeepsTree(lay, r, r');
      hide Tree, LeafPte;
      forall f | BASE_F <= f < lay.endF ensures KernelEntryOk(lay, r', f) {
        assert KernelEntryOk(lay, r, f);
        TreePlace(lay, r, KernelLow(f));
      }
    }
  }

  lemma FreshSees(lay: Layout, mmu: Mmu, r: Ram, mem: Mem)
    requires Mapped(lay, mmu, r) && Agrees(mem, r) && Sized(lay, r)
    ensures Sees(lay, mmu, mem)
  {
    hide Mapped, Sees;
    FreshKeepsMapped(lay, mmu, r, r.(mem := mem));
    MappedSees(lay, mmu, r.(mem := mem));
  }

  lemma FreshStore(lay: Layout, mmu: Mmu, r: Ram, mem: Mem, a: nat, b: Byte)
    requires Mapped(lay, mmu, r) && Agrees(mem, r) && Sized(lay, r) && r.next * 512 <= a / 8 < |mem|
    ensures Agrees(StoreByte(mem, a, b), r) && Sees(lay, mmu, StoreByte(mem, a, b))
  {
    hide Mapped, Sees;
    FreshSees(lay, mmu, r, StoreByte(mem, a, b));
  }

  /** A table that has just been hung below an upper entry. */
  lemma TableKeepsMapped(lay: Layout, mmu: Mmu, r: Ram, l: Label, i: nat)
    requires Mapped(lay, mmu, r) && Tree(lay, r) && l in r.book && Upper(l) && i < 512 && Sole(r.book, l, i)
    requires Child(l, i) !in r.book && NewTable(lay, r, l, r.book[l], i).Done?
    ensures Mapped(lay, mmu, NewTable(lay, r, l, r.book[l], i).value.0)
  {
    NewTableWords(lay, r, l, i);
    hide Tree, NewTable, KernelEntryOk;
    var r' := NewTable(lay, r, l, r.book[l], i).value.0;
    if mmu.Paged? {
      var s :| Root(s) in r.book && r.book[Root(s)] == mmu.satp;
      assert Root(s) in r'.book && r'.book[Root(s)] == mmu.satp;
      forall f | BASE_F <= f < lay.endF ensures KernelEntryOk(lay, r', f) {
        EntryKept(lay, r, r', l, i, f);
      }
    }
  }

  lemma EntryKept(lay: Layout, r: Ram, r': Ram, l: Label, i: nat, f: nat)
    requires Tree(lay, r) && l in r.book && Upper(l) && i < 512 && Child(l, i) !in r.book && KernelEntryOk(lay, r, f)
    requires r'.book == r.book[Child(l, i) := r.next] && |r'.mem| == |r.mem|
    requires forall w :: 0 <= w < r.next * 512 && w < |r.mem| && w != r.book[l] * 512 + i ==> r'.mem[w] == r.mem[w]
    ensures KernelEntryOk(lay, r', f)
  {
    hide Tree, LeafPte;
    TreePlace(lay, r, KernelLow(f));
    TreeSlot(lay, r, KernelLow(f), f % 512, l, i);
  }

  lemma NewTableWords(lay: Layout, r: Ram, l: Label, i: nat)
    requires Tree(lay, r) && l in r.book && Upper(l) && i < 512 && Sole(r.book, l, i)
    requires Child(l, i) !in r.book && NewTable(lay, r, l, r.book[l], i).Done?
    ensures var r' := NewTable(lay, r, l, r.book[l], i).value.0;
      && Tree(lay, r') && r'.book == r.book[Child(l, i) := r.next] && |r'.mem| == |r.mem|
      && forall w :: 0 <= w < r.next * 512 && w < |r.mem| && w != r.book[l] * 512 + i ==> r'.mem[w] == r.mem[w]
  {
    TreePlace(lay, r, l);
    TreeIsSized(lay, r);
    hide Tree, Pointer, PointerExpr;
  }

  /** A leaf written into a table of user pages, noted in the book or not yet. */
  lemma LeafKeepsMapped(lay: Layout, mmu: Mmu, r: Ram, low: Label, i: nat, pte: Word)
    requires Mapped(lay, mmu, r) && Tree(lay, r) && low in r.book && low.Low? && low.s > 0 && i < 512
    ensures Mapped(lay, mmu, WriteLeaf(lay, r, low, r.book[low], i, pte))
  {
    var r' := WriteLeaf(lay, r, low, r.book[low], i, pte);
    TreePlace(lay, r, low);
    if mmu.Paged? {
      hide Tree, LeafPte;
      forall f | BASE_F <= f < lay.endF ensures KernelEntryOk(lay, r', f) {
        assert KernelEntryOk(lay, r, f);
        TreeSlot(lay, r, KernelLow(f), f % 512, low, i);
      }
    }
  }
}
