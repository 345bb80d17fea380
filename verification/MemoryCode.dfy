/** The memory code as it runs: memory.c, the byte loops of common.c it uses, and
    the address-space half of process.c and kernel.c, on one mutable array of RAM.
    Every load and store goes through the translation that is in force. A result
    `ok == false` is a PANIC, and so is `faulted`, a page fault in supervisor mode. */
module MemoryCode {
  import opened Words
  import opened Sv39
  import opened Pte
  import opened PhysMemory
  import opened PageTables
  import opened Heap
  import opened FlatView
  import opened AddressSpaces
  import opened KernelView

  class Memory {
    const lay: Layout
    const ram: array<Word>
    var next: nat                    // next_paddr / PAGE_SIZE
    var kernelPageTable: nat         // kernel_page_table / PAGE_SIZE; 0 is NULL
    ghost var book: map<Label, nat>
    var faulted: bool
    ghost var trail: seq<Mem>        // memory after each store, oldest first

    ghost function Abs(): Ram
      reads this, ram
    {
      Ram(ram[..], next, book)
    }

    /** No kernel access has faulted, and in no memory of the trail, nor now, could any. */
    ghost predicate Steady(mmu: Mmu)
      reads this, ram
    {
      && !faulted && lay.Ok() && ram.Length == lay.endF * 512 && Cached(lay, mmu)
      && Sees(lay, mmu, ram[..]) && (forall i :: 0 <= i < |trail| ==> Sees(lay, mmu, trail[i]))
      && (|trail| > 0 ==> trail[|trail| - 1] == ram[..])
    }

    /** .data and .bss at boot: next_paddr at __free_ram, no template; RAM holds anything. */
    constructor (lay: Layout, ram: array<Word>)
      requires lay.Ok() && ram.Length == lay.endF * 512
      ensures this.lay == lay && this.ram == ram && kernelPageTable == 0
      ensures Fresh(lay, Abs()) && Steady(Bare)
    {
      this.lay, this.ram := lay, ram;
      next, kernelPageTable, book := lay.freeF, 0, map[];
      faulted, trail := false, [];
    }

    // The kernel's loads and stores: ld, lbu, sb, sd.

    method GetWord(mmu: Mmu, a: nat) returns (w: Word)
      requires Steady(mmu) && InKernelRange(lay, a) && a % 8 == 0
      modifies this`faulted
      ensures Steady(mmu) && w == ram[a / 8]
    {
      SeesAt(lay, mmu, ram[..], a, Load);
      var x := Route(mmu, ram[..], a, Load);
      faulted := faulted || x.Fault?;
      w := 0;
      if x.At? && x.pa / 8 < ram.Length {
        w := ram[x.pa / 8];
      }
    }

    method GetByte(mmu: Mmu, a: nat) returns (b: Byte)
      requires Steady(mmu) && InKernelRange(lay, a)
      modifies this`faulted
      ensures Steady(mmu) && b == RamByte(ram[..], a)
    {
      SeesAt(lay, mmu, ram[..], a, Load);
      var x := Route(mmu, ram[..], a, Load);
      faulted := faulted || x.Fault?;
      b := 0;
      if x.At? && x.pa / 8 < ram.Length {
        b := ByteOf(ram[x.pa / 8], x.pa % 8);
      }
    }

    method PutByte(mmu: Mmu, a: nat, b: Byte)
      requires Steady(mmu) && InKernelRange(lay, a) && Sees(lay, mmu, StoreByte(ram[..], a, b))
      modifies ram, this`trail, this`faulted
      ensures Steady(mmu) && old(trail) <= trail && ram[..] == StoreByte(old(ram[..]), a, b)
    {
      hide Sees, Cached, StoreByte;
      SeesAt(lay, mmu, ram[..], a, Store);
      var x := Route(mmu, ram[..], a, Store);
      faulted := faulted || x.Fault?;
      if x.At? && x.pa / 8 < ram.Length {
        PhysicalByte(x.pa, b);
      }
      trail := trail + [ram[..]];
    }

    /** A byte of physical memory. */
    method PhysicalByte(pa: nat, b: Byte)
      requires pa / 8 < ram.Length
      modifies ram
      ensures ram[..] == StoreByte(old(ram[..]), pa, b)
    {
      WordIsEightBytes();
      WithByteInRange(ram[pa / 8], pa % 8, b, 8);
      ram[pa / 8] := WithByte(ram[pa / 8], pa % 8, b);
    }

    method PutWord(mmu: Mmu, a: nat, w: Word)
      requires Steady(mmu) && InKernelRange(lay, a) && a % 8 == 0 && Sees(lay, mmu, ram[..][a / 8 := w])
      modifies ram, this`trail, this`faulted
      ensures Steady(mmu) && old(trail) <= trail && ram[..] == old(ram[..])[a / 8 := w]
    {
      hide Sees, Cached;
      SeesAt(lay, mmu, ram[..], a, Store);
      var x := Route(mmu, ram[..], a, Store);
      faulted := faulted || x.Fault?;
      if x.At? && x.pa / 8 < ram.Length {
        ram[x.pa / 8] := w;
      }
      trail := trail + [ram[..]];
    }

    /** memset(paddr, 0, n * PAGE_SIZE), byte by byte, on pages that r had not handed out. */
    method Clear(mmu: Mmu, f: nat, n: nat, ghost r: Ram)
      requires Steady(mmu) && (f + n) * 512 <= ram.Length && BASE_F <= f
      requires Mapped(lay, mmu, r) && Sized(lay, r) && Agrees(ram[..], r) && r.next <= f
      modifies ram, this`trail, this`faulted
      ensures Steady(mmu) && old(trail) <= trail && ram[..] == ZeroPages(old(ram[..]), f, n)
    {
      hide Mapped, Sees, Cached;
      ghost var was := ram[..];
      for i := 0 to n * PAGE_SIZE
        invariant Steady(mmu) && old(trail) <= trail && ZeroedTo(ram[..], was, f, n, i) && Agrees(ram[..], r)
      {
        PageByte(lay, f, n, i);
        FreshStore(lay, mmu, r, ram[..], f * PAGE_SIZE + i, 0);
        ZeroStep(ram[..], was, f, n, i);
        PutByte(mmu, f * PAGE_SIZE + i, 0);
      }
      ZeroEnds(ram[..], was, f, n);
    }

    /** memcpy of bytes into a page that r had not handed out. */
    method CopyIn(mmu: Mmu, f: nat, bytes: seq<Byte>, ghost r: Ram)
      requires Steady(mmu) && |bytes| <= PAGE_SIZE && (f + 1) * 512 <= ram.Length && BASE_F <= f
      requires Mapped(lay, mmu, r) && Sized(lay, r) && Agrees(ram[..], r) && r.next <= f
      modifies ram, this`trail, this`faulted
      ensures Steady(mmu) && old(trail) <= trail && Agrees(ram[..], r)
      ensures ram[..] == CopyBytes(old(ram[..]), f * PAGE_SIZE, bytes, |bytes|)
    {
      hide Mapped, Sees, Cached;
      for i := 0 to |bytes|
        invariant Steady(mmu) && old(trail) <= trail && Agrees(ram[..], r)
        invariant ram[..] == CopyBytes(old(ram[..]), f * PAGE_SIZE, bytes, i)
      {
        PageByte(lay, f, 1, i);
        FreshStore(lay, mmu, r, ram[..], f * PAGE_SIZE + i, bytes[i]);
        PutByte(mmu, f * PAGE_SIZE + i, bytes[i]);
      }
    }

    /** memcpy of a whole page, byte by byte, while booting. */
    method CopyPageBytes(dst: nat, src: nat)
      requires Steady(Bare) && (dst + 1) * 512 <= ram.Length && (src + 1) * 512 <= ram.Length && dst != src
      requires BASE_F <= dst && BASE_F <= src
      modifies ram, this`trail, this`faulted
      ensures Steady(Bare) && ram[..] == CopyPage(old(ram[..]), dst, src)
    {
      ghost var was := ram[..];
      hide CopiedTo, CopyPage;
      NothingCopied(was, dst, src);
      for i := 0 to PAGE_SIZE
        invariant Steady(Bare) && CopiedTo(ram[..], was, dst, src, i)
      {
        PageByte(lay, dst, 1, i);
        PageByte(lay, src, 1, i);
        CopyStep(ram[..], was, dst, src, i);
        var b := GetByte(Bare, src * PAGE_SIZE + i);
        PutByte(Bare, dst * PAGE_SIZE + i, b);
      }
      CopyEnds(ram[..], was, dst, src);
    }

    /** alloc_pages. */
    method AllocPages(mmu: Mmu, n: nat) returns (ok: bool, f: nat)
      requires Sized(lay, Abs()) && Steady(mmu) && Mapped(lay, mmu, Abs())
      modifies this`next, ram, this`trail, this`faulted
      ensures Steady(mmu) && old(trail) <= trail
      ensures ok <==> Alloc(lay, old(Abs()), n).Done?
      ensures ok ==> Alloc(lay, old(Abs()), n) == Done((Abs(), f)) && Mapped(lay, mmu, Abs()) && Agrees(ram[..], old(Abs()))
      ensures var pages := n * 4096 % 0x1_0000_0000 / 4096;
        && (ok <==> old(next) + pages <= lay.endF)
        && (ok ==> f == old(next) && next == f + pages
                   && forall w :: 0 <= w < ram.Length ==> ram[w] == if f * 512 <= w < (f + pages) * 512 then 0 else old(ram[..])[w])
    {
      hide Mapped, Sees, Cached;
      ghost var r := Abs();
      f := next;
      var pages := n * PAGE_SIZE % 0x1_0000_0000 / PAGE_SIZE;
      next := next + pages;
      if next > lay.endF {
        return false, f;
      }
      Clear(mmu, f, pages, r);
      FreshKeepsMapped(lay, mmu, r, Abs());
      ok := true;
    }

    /** map_page. The label of the root serves the bookkeeping only. */
    method MapPage(mmu: Mmu, ghost l: Label, root: nat, va: Word, pa: Word, flags: nat) returns (ok: bool)
      requires Tree(lay, Abs()) && l in book && l.Root? && root == book[l]
      requires Flags(flags) && pa < PPN_LIMIT * PAGE_SIZE && Sole(book, l, Vpn(va, 2))
      requires Steady(mmu) && Mapped(lay, mmu, Abs()) && MayMap(mmu, l, va)
      modifies this`next, this`book, ram, this`trail, this`faulted
      ensures Steady(mmu) && old(trail) <= trail
      ensures ok <==> PhysMemory.MapPage(lay, old(Abs()), l, root, va, pa, flags).Done?
      ensures ok ==> PhysMemory.MapPage(lay, old(Abs()), l, root, va, pa, flags) == Done(Abs())
    {
      hide Reached, PtIndex, Descend, Steady, Mapped, LeafExpr, PhysMemory.MapPage, IsAligned, BeyondLowerHalf;
      AddressTests(lay, Abs(), l, va, pa, flags);
      if !IsAligned(va) || !IsAligned(pa) || BeyondLowerHalf(va) {
        return false;
      }
      ghost var r0 := Abs();
      var table, level := root, PT_LEVELS - 1;
      ReachedRoot(lay, r0, l, va);
      while level > 0
        invariant 0 <= level <= 2 && Reached(lay, r0, l, va, level, Abs(), table)
        invariant Steady(mmu) && old(trail) <= trail && Mapped(lay, mmu, Abs())
      {
        ReachedFacts(lay, r0, l, va, level, Abs(), table);
        ghost var r := Abs();
        var done, below := NextTable(mmu, PathLabel(l, va, level), table, PtIndex(va, level));
        ReachedStep(lay, r0, l, va, pa, flags, level, r, table);
        if !done {
          return false;
        }
        table, level := below, level - 1;
      }
      ReachedFacts(lay, r0, l, va, 0, Abs(), table);
      ReachedLeaf(lay, r0, l, va, pa, flags, Abs(), table);
      WriteEntry(mmu, LowLabel(l, va), table, PtIndex(va, 0), LeafExpr(pa, flags, lay.attr));
      ok := true;
    }

    /** The body of the loop of map_page. */
    method NextTable(mmu: Mmu, ghost l: Label, table: nat, i: nat) returns (ok: bool, below: nat)
      requires Tree(lay, Abs()) && l in book && Upper(l) && table == book[l]
      requires i < 512 && Sole(book, l, i)
      requires Steady(mmu) && Mapped(lay, mmu, Abs())
      modifies this`next, this`book, ram, this`trail, this`faulted
      ensures Steady(mmu) && old(trail) <= trail && (ok ==> Mapped(lay, mmu, Abs()))
      ensures ok <==> Descend(lay, old(Abs()), l, table, i).Done?
      ensures ok ==> Descend(lay, old(Abs()), l, table, i) == Done((Abs(), below))
    {
      hide Tree, Pointer, Present, PteToPaddr, NewTable, Mapped, Sees, Cached;
      PresentIffInBook(lay, Abs(), l, i);
      TreePlace(lay, Abs(), l);
      EntryAddress(lay, table, i);
      var entry := GetWord(mmu, table * PAGE_SIZE + i * 8);
      if !Present(entry) {
        ok, below := AddTable(mmu, l, table, i);
      } else {
        ok, below := true, PteToPaddr(entry) / PAGE_SIZE;
      }
    }

    /** A new table below entry i; pte_to_paddr of the new entry is its address. */
    method AddTable(mmu: Mmu, ghost l: Label, table: nat, i: nat) returns (ok: bool, below: nat)
      requires Tree(lay, Abs()) && l in book && Upper(l) && table == book[l]
      requires i < 512 && Sole(book, l, i) && Child(l, i) !in book
      requires Steady(mmu) && Mapped(lay, mmu, Abs())
      modifies this`next, this`book, ram, this`trail, this`faulted
      ensures Steady(mmu) && old(trail) <= trail && (ok ==> Mapped(lay, mmu, Abs()))
      ensures ok <==> NewTable(lay, old(Abs()), l, table, i).Done?
      ensures ok ==> NewTable(lay, old(Abs()), l, table, i) == Done((Abs(), below))
    {
      hide Tree, Pointer, PointerExpr, PteToPaddr, ZeroPages, NewTable, Mapped, Sees, Cached;
      ghost var r := Abs();
      PresentIffInBook(lay, r, l, i);
      TreePlace(lay, r, l);
      TreeIsSized(lay, r);
      TableSteps(lay, r, l, table, i);
      if next < lay.endF { TableKeepsMapped(lay, mmu, r, l, i); }
      ok, below := AllocPages(mmu, 1);
      if ok {
        ghost var r' := NewTable(lay, r, l, table, i).value.0;
        MappedSees(lay, mmu, r');
        below := WritePointer(mmu, Child(l, i), table, i, below);
      }
    }

    /** The entry of a new table, read back as map_page does. */
    method WritePointer(mmu: Mmu, ghost child: Label, table: nat, i: nat, f: nat) returns (below: nat)
      requires Steady(mmu) && BASE_F <= table < lay.endF && i < 512 && f < PPN_LIMIT
      requires table * 512 + i < ram.Length && Sees(lay, mmu, ram[..][table * 512 + i := PointerExpr(f * PAGE_SIZE)])
      modifies this`book, ram, this`trail, this`faulted
      ensures Steady(mmu) && old(trail) <= trail && below == f
      ensures Abs() == Ram(old(ram[..])[table * 512 + i := PointerExpr(f * PAGE_SIZE)], next, old(book)[child := f])
    {
      hide PointerExpr, PteToPaddr, Sees, Cached;
      EntryAddress(lay, table, i);
      PointerReadsBack(f);
      PutWord(mmu, table * PAGE_SIZE + i * 8, PointerExpr(f * PAGE_SIZE));
      book := book[child := f];
      var entry := GetWord(mmu, table * PAGE_SIZE + i * 8);
      below := PteToPaddr(entry) / PAGE_SIZE;
    }

    /** Either nothing has been handed out yet, or the template is complete. */
    ghost predicate TemplateReady()
      reads this, ram
    {
      if kernelPageTable == 0 then Fresh(lay, Abs())
      else HeapOk(lay, Abs()) && book[Root(0)] == kernelPageTable
    }

    /** create_page_table for space s; the template is built on the first call. */
    method CreatePageTable(s: nat) returns (ok: bool, root: nat)
      requires TemplateReady() && Steady(Bare)
      modifies this, ram
      ensures Steady(Bare)
      ensures ok <==> TableFor(lay, old(Abs()), old(kernelPageTable), s).Done?
      ensures ok ==> TableFor(lay, old(Abs()), old(kernelPageTable), s) == Done((Abs(), kernelPageTable, root))
    {
      hide NewTemplate, CopyFor, Fresh, HeapOk;
      root := 0;
      if kernelPageTable == 0 {
        ok := BuildTemplate();
        if !ok {
          return;
        }
        TemplateIsHeap(lay, old(Abs()));
      }
      ok, root := CopyTemplate(s);
    }

    method CopyTemplate(s: nat) returns (ok: bool, root: nat)
      requires HeapOk(lay, Abs()) && book[Root(0)] == kernelPageTable && Steady(Bare)
      modifies this`next, this`book, ram, this`trail, this`faulted
      ensures Steady(Bare)
      ensures ok <==> CopyFor(lay, old(Abs()), kernelPageTable, s).Done?
      ensures ok ==> CopyFor(lay, old(Abs()), kernelPageTable, s) == Done((Abs(), kernelPageTable, root))
    {
      HeapIsTree(lay, Abs());
      TreePlace(lay, Abs(), Root(0));
      hide Tree, HeapOk, CopyPage, ZeroPages;
      ok, root := AllocPages(Bare, 1);
      if ok {
        CopyPageBytes(root, kernelPageTable);
        book := book[Root(s) := root];
      }
    }

    /** The template: a root page, and every kernel page mapped to itself. */
    method BuildTemplate() returns (ok: bool)
      requires Fresh(lay, Abs()) && Steady(Bare)
      modifies this, ram
      ensures Steady(Bare)
      ensures ok <==> NewTemplate(lay, old(Abs())).Done?
      ensures ok ==> NewTemplate(lay, old(Abs())) == Done((Abs(), kernelPageTable))
    {
      hide UpTo, MapKernelPage, Fresh, ZeroPages;
      ok := StartTemplate();
      if !ok {
        return;
      }
      ghost var r1, root := Abs(), kernelPageTable;
      var f := BASE_F;
      while f < lay.endF
        invariant f <= lay.endF && kernelPageTable == root && UpTo(lay, Abs(), root, f) && Steady(Bare)
        invariant MapKernel(lay, r1, root, BASE_F) == MapKernel(lay, Abs(), root, f)
      {
        ok := MapKernelSelf(f);
        if !ok {
          return;
        }
        f := f + 1;
      }
    }

    method StartTemplate() returns (ok: bool)
      requires Fresh(lay, Abs()) && Steady(Bare)
      modifies this, ram
      ensures Steady(Bare)
      ensures ok <==> AllocPage(lay, old(Abs())).Done?
      ensures ok ==>
        && kernelPageTable == old(next) && old(next) < lay.endF
        && Abs() == NameRoot(lay, old(Abs()), AllocPage(lay, old(Abs())).value.0, old(next))
        && UpTo(lay, Abs(), kernelPageTable, BASE_F) && BASE_F < lay.endF
    {
      hide UpTo, ZeroPages;
      ok, kernelPageTable := AllocPages(Bare, 1);
      book := book[Root(0) := kernelPageTable];
    }

    method MapKernelSelf(f: nat) returns (ok: bool)
      requires UpTo(lay, Abs(), kernelPageTable, f) && f < lay.endF && Steady(Bare)
      modifies this`next, this`book, ram, this`trail, this`faulted
      ensures Steady(Bare)
      ensures ok <==> MapKernelPage(lay, old(Abs()), kernelPageTable, f).Done?
      ensures ok ==> MapKernelPage(lay, old(Abs()), kernelPageTable, f) == Done(Abs())
    {
      KernelPageReady(lay, Abs(), f);
      hide PhysMemory.MapPage, Tree;
      ok := MapPage(Bare, Root(0), kernelPageTable, f * PAGE_SIZE, f * PAGE_SIZE, KERNEL_RWX);
    }

    /** Allocate, fill and map one user page: the loop body of create_process2
        and, without bytes, the tail of handle_page_fault. */
    method GivePage(mmu: Mmu, s: nat, root: nat, va: Word, bytes: seq<Byte>) returns (ok: bool)
      requires Tree(lay, Abs()) && Root(s) in book && root == book[Root(s)]
      requires |bytes| <= PAGE_SIZE && Vpn(va, 2) != KERNEL_VPN2
      requires Steady(mmu) && Mapped(lay, mmu, Abs()) && (mmu.Bare? || s > 0)
      modifies this`next, this`book, ram, this`trail, this`faulted
      ensures Steady(mmu) && old(trail) <= trail
      ensures ok <==> PhysMemory.GivePage(lay, old(Abs()), s, root, va, bytes).Done?
      ensures ok ==> PhysMemory.GivePage(lay, old(Abs()), s, root, va, bytes) == Done(Abs())
    {
      hide Tree, PhysMemory.MapPage, ZeroPages, CopyBytes, Mapped, Sees, Cached;
      ghost var r := Abs();
      TreeIsSized(lay, r);
      var f;
      ok, f := AllocPages(mmu, 1);
      if !ok {
        return;
      }
      CopyIn(mmu, f, bytes, r);
      assert Abs() == FillFresh(lay, r, AllocPage(lay, r).value.0, f, bytes);
      FreshKeepsMapped(lay, mmu, r, Abs());
      ok := MapPage(mmu, Root(s), root, va, f * PAGE_SIZE, USER_RWX);
      if ok {
        book := book[UserLabel(s, va) := f];
      }
    }

    /** The load loop of create_process2. */
    method LoadImage(s: nat, root: nat, image: seq<Byte>) returns (ok: bool)
      requires Loading(lay, Abs(), s, root, image, 0) && Steady(Bare)
      modifies this`next, this`book, ram, this`trail, this`faulted
      ensures Steady(Bare)
      ensures ok <==> AddressSpaces.LoadImage(lay, old(Abs()), s, root, image, 0).Done?
      ensures ok ==> AddressSpaces.LoadImage(lay, old(Abs()), s, root, image, 0) == Done(Abs())
    {
      hide Loading, PhysMemory.GivePage, Tree;
      ghost var r0 := Abs();
      var off := 0;
      while off < |image|
        invariant Loading(lay, Abs(), s, root, image, off) && Steady(Bare)
        invariant AddressSpaces.LoadImage(lay, r0, s, root, image, 0) == AddressSpaces.LoadImage(lay, Abs(), s, root, image, off)
        decreases |image| - off
      {
        LoadReady(lay, Abs(), s, root, image, off);
        LoadStep(lay, Abs(), s, root, image, off);
        ok := GivePage(Bare, s, root, USER_BASE + off, Chunk(image, off));
        if !ok {
          return;
        }
        off := off + PAGE_SIZE;
      }
      ok := true;
    }

    method WriteEntry(mmu: Mmu, ghost l: Label, table: nat, i: nat, pte: Word)
      requires Tree(lay, Abs()) && l in book && l.Low? && table == book[l] && i < 512
      requires Steady(mmu) && Mapped(lay, mmu, Abs()) && (mmu.Bare? || l.s > 0)
      modifies ram, this`trail, this`faulted
      ensures Steady(mmu) && old(trail) <= trail && Abs() == WriteLeaf(lay, old(Abs()), l, table, i, pte)
    {
      hide Tree, Mapped, Sees, Cached;
      TreePlace(lay, Abs(), l);
      EntryAddress(lay, table, i);
      LeafSees(lay, mmu, Abs(), l, i, pte);
      PutWord(mmu, table * PAGE_SIZE + i * 8, pte);
    }
  }

  /** Where map_page may write: anywhere while booting, later for user pages only. */
  ghost predicate MayMap(mmu: Mmu, l: Label, va: nat) {
    mmu.Bare? || (l.s > 0 && Vpn(va, 2) != KERNEL_VPN2)
  }

  lemma LeafSees(lay: Layout, mmu: Mmu, r: Ram, l: Label, i: nat, pte: Word)
    requires Tree(lay, r) && l in r.book && l.Low? && i < 512 && Mapped(lay, mmu, r) && (mmu.Bare? || l.s > 0)
    ensures Sees(lay, mmu, WriteLeaf(lay, r, l, r.book[l], i, pte).mem)
  {
    if mmu.Paged? {
      hide Tree, Mapped, Sees, WriteLeaf;
      LeafKeepsMapped(lay, mmu, r, l, i, pte);
      MappedSees(lay, mmu, WriteLeaf(lay, r, l, r.book[l], i, pte));
    }
  }

  lemma EntryAddress(lay: Layout, table: nat, i: nat)
    requires BASE_F <= table < lay.endF && i < 512
    ensures InKernelRange(lay, table * PAGE_SIZE + i * 8)
    ensures (table * PAGE_SIZE + i * 8) % 8 == 0 && (table * PAGE_SIZE + i * 8) / 8 == table * 512 + i
  {
  }

  lemma PageByte(lay: Layout, f: nat, n: nat, i: nat)
    requires BASE_F <= f && (f + n) * 512 <= lay.endF * 512 && i < n * PAGE_SIZE
    ensures InKernelRange(lay, f * PAGE_SIZE + i) && f * 512 <= (f * PAGE_SIZE + i) / 8 < (f + n) * 512
  {
  }

  /** The first n bytes from page f on are zero, and memory outside the pages is as it was. */
  ghost predicate ZeroedTo(m: Mem, was: Mem, f: nat, n: nat, i: nat) {
    && |m| == |was| && (f + n) * 512 <= |m|
    && (forall a :: f * PAGE_SIZE <= a < f * PAGE_SIZE + i && a / 8 < |m| ==> RamByte(m, a) == 0)
    && (forall w :: 0 <= w < |m| && !(f * 512 <= w < (f + n) * 512) ==> m[w] == was[w])
  }

  lemma ZeroStep(m: Mem, was: Mem, f: nat, n: nat, i: nat)
    requires ZeroedTo(m, was, f, n, i) && i < n * PAGE_SIZE && f * 512 <= (f * PAGE_SIZE + i) / 8 < (f + n) * 512
    ensures ZeroedTo(StoreByte(m, f * PAGE_SIZE + i, 0), was, f, n, i + 1)
  {
    hide RamByte;
    var m' := StoreByte(m, f * PAGE_SIZE + i, 0);
    forall a | f * PAGE_SIZE <= a < f * PAGE_SIZE + i + 1 && a / 8 < |m| ensures RamByte(m', a) == 0 {
      RamByteAfterStore(m, f * PAGE_SIZE + i, 0, a);
    }
  }

  lemma ZeroEnds(m: Mem, was: Mem, f: nat, n: nat)
    requires ZeroedTo(m, was, f, n, n * PAGE_SIZE)
    ensures m == ZeroPages(was, f, n)
  {
    forall w | f * 512 <= w < (f + n) * 512 ensures m[w] == 0 {
      ZeroBytesZeroWord(m, w);
    }
  }

  /** The tests of map_page. */
  lemma AddressTests(lay: Layout, r: Ram, l: Label, va: Word, pa: Word, flags: nat)
    requires Tree(lay, r) && l in r.book && l.Root? && Flags(flags) && pa < PPN_LIMIT * PAGE_SIZE && Sole(r.book, l, Vpn(va, 2))
    ensures !IsAligned(va) || !IsAligned(pa) || BeyondLowerHalf(va) ==> PhysMemory.MapPage(lay, r, l, r.book[l], va, pa, flags).Panic?
  {
    hide Tree, Descend;
  }

  lemma ReachedRoot(lay: Layout, r0: Ram, l: Label, va: Word)
    requires Tree(lay, r0) && l in r0.book && l.Root? && Sole(r0.book, l, Vpn(va, 2))
    ensures Reached(lay, r0, l, va, 2, r0, r0.book[l])
  {
    hide Tree;
  }

  /** A new table, written out. */
  lemma TableSteps(lay: Layout, r: Ram, l: Label, table: nat, i: nat)
    requires Tree(lay, r) && l in r.book && Upper(l) && table == r.book[l] && i < 512 && Sole(r.book, l, i) && Child(l, i) !in r.book
    ensures Sized(lay, r) && table * 512 + i < |r.mem| && r.next < PPN_LIMIT
    ensures NewTable(lay, r, l, table, i) ==
      if r.next >= lay.endF then Panic
      else Done((Ram(ZeroPages(r.mem, r.next, 1)[table * 512 + i := PointerExpr(r.next * PAGE_SIZE)], r.next + 1,
                     r.book[Child(l, i) := r.next]), r.next))
  {
    TreePlace(lay, r, l);
    TreeIsSized(lay, r);
    hide Tree, Pointer, PointerExpr, ZeroPages;
  }

  lemma PointerReadsBack(f: nat)
    requires f < PPN_LIMIT
    ensures PteToPaddr(PointerExpr(f * PAGE_SIZE)) / PAGE_SIZE == f
  {
    hide PteToPaddr, PointerExpr, Pointer, Ppn;
    PointerPpn(f);
    assert f * PAGE_SIZE / PAGE_SIZE == f;
  }

  /** The label of the table at a level on the path of va. */
  function PathLabel(l: Label, va: nat, level: nat): Label
    requires l.Root? && level <= 2
  {
    if level == 2 then l else if level == 1 then Child(l, Vpn(va, 2)) else LowLabel(l, va)
  }

  /** map_page, started in r0 under root l, has come down to `level`: memory is
      now r and `table` is the table there. */
  ghost predicate Reached(lay: Layout, r0: Ram, l: Label, va: Word, level: nat, r: Ram, table: nat)
    requires Tree(lay, r0) && l in r0.book && l.Root? && Sole(r0.book, l, Vpn(va, 2)) && level <= 2
  {
    if level == 2 then r == r0 && table == r0.book[l]
    else
      var first := Descend(lay, r0, l, r0.book[l], Vpn(va, 2));
      if level == 1 then first == Done((r, table))
      else first.Done? && Descend(lay, first.value.0, Child(l, Vpn(va, 2)), first.value.1, Vpn(va, 1)) == Done((r, table))
  }

  lemma ReachedFacts(lay: Layout, r0: Ram, l: Label, va: Word, level: nat, r: Ram, table: nat)
    requires Tree(lay, r0) && l in r0.book && l.Root? && Sole(r0.book, l, Vpn(va, 2)) && level <= 2
    requires Reached(lay, r0, l, va, level, r, table)
    ensures Tree(lay, r) && PathLabel(l, va, level) in r.book && table == r.book[PathLabel(l, va, level)]
    ensures level > 0 ==> Sole(r.book, PathLabel(l, va, level), Vpn(va, level))
  {
    hide Tree, Descend;
  }

  lemma ReachedStep(lay: Layout, r0: Ram, l: Label, va: Word, pa: Word, flags: nat, level: nat, r: Ram, table: nat)
    requires Tree(lay, r0) && l in r0.book && l.Root? && Sole(r0.book, l, Vpn(va, 2)) && 0 < level <= 2
    requires Flags(flags) && pa < PPN_LIMIT * PAGE_SIZE
    requires Reached(lay, r0, l, va, level, r, table)
    requires Tree(lay, r) && PathLabel(l, va, level) in r.book && table == r.book[PathLabel(l, va, level)]
    requires Sole(r.book, PathLabel(l, va, level), Vpn(va, level))
    ensures var step := Descend(lay, r, PathLabel(l, va, level), table, Vpn(va, level));
      if step.Done? then Reached(lay, r0, l, va, level - 1, step.value.0, step.value.1)
      else PhysMemory.MapPage(lay, r0, l, r0.book[l], va, pa, flags) == Panic
  {
    hide Tree, Descend, PtIndex, LeafExpr, WriteLeaf;
  }

  lemma ReachedLeaf(lay: Layout, r0: Ram, l: Label, va: Word, pa: Word, flags: nat, r: Ram, table: nat)
    requires Tree(lay, r0) && l in r0.book && l.Root? && Sole(r0.book, l, Vpn(va, 2))
    requires Flags(flags) && pa < PPN_LIMIT * PAGE_SIZE
    requires IsAligned(va) && IsAligned(pa) && !BeyondLowerHalf(va)
    requires Reached(lay, r0, l, va, 0, r, table)
    requires Tree(lay, r) && LowLabel(l, va) in r.book && table == r.book[LowLabel(l, va)]
    ensures PhysMemory.MapPage(lay, r0, l, r0.book[l], va, pa, flags)
         == Done(WriteLeaf(lay, r, LowLabel(l, va), table, Vpn(va, 0), LeafExpr(pa, flags, lay.attr)))
  {
    hide Tree, Descend, PtIndex, LeafExpr, WriteLeaf;
  }

  /** Byte o of page dst is byte o of page src of m'. */
  ghost predicate Copied(m: Mem, m': Mem, dst: nat, src: nat, o: nat) {
    && (dst * PAGE_SIZE + o) / 8 < |m| && (src * PAGE_SIZE + o) / 8 < |m'|
    && RamByte(m, dst * PAGE_SIZE + o) == RamByte(m', src * PAGE_SIZE + o)
  }

  lemma CopiedStep(m: Mem, m': Mem, dst: nat, src: nat, i: nat, b: Byte, o: nat)
    requires (dst * PAGE_SIZE + i) / 8 < |m| && (src * PAGE_SIZE + i) / 8 < |m'|
    requires b == RamByte(m', src * PAGE_SIZE + i) && o <= i
    requires o < i ==> Copied(m, m', dst, src, o)
    ensures Copied(StoreByte(m, dst * PAGE_SIZE + i, b), m', dst, src, o)
  {
    hide RamByte, StoreByte;
    RamByteAfterStore(m, dst * PAGE_SIZE + i, b, dst * PAGE_SIZE + o);
  }

  /** The first n bytes of page src have been copied to page dst, and nothing else. */
  ghost predicate CopiedTo(m: Mem, was: Mem, dst: nat, src: nat, n: nat) {
    && |m| == |was| && (dst + 1) * 512 <= |m| && (src + 1) * 512 <= |m|
    && (forall o :: 0 <= o < n ==> Copied(m, was, dst, src, o))
    && (forall w :: 0 <= w < |m| && !(dst * 512 <= w < (dst + 1) * 512) ==> m[w] == was[w])
  }

  lemma NothingCopied(was: Mem, dst: nat, src: nat)
    requires (dst + 1) * 512 <= |was| && (src + 1) * 512 <= |was|
    ensures CopiedTo(was, was, dst, src, 0)
  {
  }

  lemma CopyStep(m: Mem, was: Mem, dst: nat, src: nat, i: nat)
    requires CopiedTo(m, was, dst, src, i) && i < PAGE_SIZE && dst != src
    ensures (dst * PAGE_SIZE + i) / 8 < |m| && (src * PAGE_SIZE + i) / 8 < |m|
    ensures CopiedTo(StoreByte(m, dst * PAGE_SIZE + i, RamByte(m, src * PAGE_SIZE + i)), was, dst, src, i + 1)
  {
    var pa, b := dst * PAGE_SIZE + i, RamByte(m, src * PAGE_SIZE + i);
    assert (src * PAGE_SIZE + i) / 8 == src * 512 + i / 8 && pa / 8 == dst * 512 + i / 8;
    assert m[src * 512 + i / 8] == was[src * 512 + i / 8];
    forall o | 0 <= o < i + 1 ensures Copied(StoreByte(m, pa, b), was, dst, src, o) {
      assert o < i ==> Copied(m, was, dst, src, o);
      CopiedStep(m, was, dst, src, i, b, o);
    }
  }

  lemma CopyEnds(m: Mem, was: Mem, dst: nat, src: nat)
    requires CopiedTo(m, was, dst, src, PAGE_SIZE)
    ensures m == CopyPage(was, dst, src)
  {
    forall w | dst * 512 <= w < (dst + 1) * 512 ensures m[w] == was[src * 512 + (w - dst * 512)] {
      CopiedWord(m, was, dst, src, w - dst * 512);
    }
  }

  lemma ZeroBytesZeroWord(mem: Mem, w: nat)
    requires w < |mem|
    requires forall a :: w * 8 <= a < w * 8 + 8 ==> RamByte(mem, a) == 0
    ensures mem[w] == 0
  {
    WordIsEightBytes();
    forall k | 0 <= k < 8 ensures ByteOf(mem[w], k) == ByteOf(0, k) {
      assert RamByte(mem, w * 8 + k) == 0;
      ZeroBytes(k);
    }
    SameBytes(mem[w], 0, 8);
  }

  lemma CopiedWord(m: Mem, m': Mem, dst: nat, src: nat, i: nat)
    requires (dst + 1) * 512 <= |m| && (src + 1) * 512 <= |m'| && i < 512
    requires forall o :: 0 <= o < PAGE_SIZE ==> Copied(m, m', dst, src, o)
    ensures m[dst * 512 + i] == m'[src * 512 + i]
  {
    WordIsEightBytes();
    hide ByteOf;
    var v, v' := dst * 512 + i, src * 512 + i;
    forall k | 0 <= k < 8 ensures ByteOf(m[v], k) == ByteOf(m'[v'], k) {
      assert Copied(m, m', dst, src, i * 8 + k);
      BytePosition(dst, i, k);
      BytePosition(src, i, k);
    }
    SameBytes(m[v], m'[v'], 8);
  }

  lemma BytePosition(f: nat, i: nat, k: nat)
    requires k < 8
    ensures (f * PAGE_SIZE + (i * 8 + k)) / 8 == f * 512 + i && (f * PAGE_SIZE + (i * 8 + k)) % 8 == k
  {
  }
}
