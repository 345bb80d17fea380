/** The kernel's page allocator and page-table code (memory.c and the memory
    half of process.c and kernel.c) as functions on physical memory. Page-aligned
    addresses are kept as page numbers. */
module PhysMemory {
  import opened Words
  import opened Sv39
  import opened Pte

  /** PANIC stops the machine for good. */
  datatype Result<+T> = Done(value: T) | Panic {
    predicate IsFailure() { Panic? }
    function PropagateFailure<S>(): Result<S> requires Panic? { Panic }
    function Extract(): T requires Done? { value }
  }

  const BASE_F: nat := 0x80200      // __kernel_base / PAGE_SIZE
  const USER_BASE: nat := 0x100_0000
  const USER_LIMIT: nat := 0x180_0000
  const USER_SIZE: nat := USER_LIMIT - USER_BASE

  /** What the linker scripts and platform.h fix: the pages from freeF up to
      endF are __free_ram to __free_ram_end. */
  datatype Layout = Layout(freeF: nat, endF: nat, attr: nat) {
    predicate Ok() {
      && BASE_F < freeF && freeF + 2048 <= endF <= 0xC0000
      && Attribute(attr)
    }
  }

  /** What a page was handed out for: a table of an address space, or the page
      behind one virtual page of it. Space 0 is the kernel's template. */
  datatype Label =
    | Root(s: nat)
    | Mid(s: nat, i2: nat)
    | Low(s: nat, i2: nat, i1: nat)
    | Page(s: nat, i2: nat, i1: nat, i0: nat)

  const KERNEL_VPN2: nat := 2

  /** The table below entry i. The kernel's gigabyte belongs to the template in
      every space: only root pages are copied. */
  function Child(l: Label, i: nat): Label
    requires !l.Page?
  {
    match l
    case Root(s) => Mid(if i == KERNEL_VPN2 then 0 else s, i)
    case Mid(s, i2) => Low(s, i2, i)
    case Low(s, i2, i1) => Page(s, i2, i1, i)
  }

  /** Physical memory, the allocator's next page, and the book of the pages
      handed out. The book is bookkeeping for the proofs: no decision reads it. */
  datatype Ram = Ram(mem: Mem, next: nat, book: map<Label, nat>)

  predicate Sized(lay: Layout, r: Ram) {
    lay.Ok() && |r.mem| == lay.endF * 512 && lay.freeF <= r.next <= lay.endF
  }

  function ZeroPages(mem: Mem, f: nat, n: nat): (z: Mem)
    requires (f + n) * 512 <= |mem|
    ensures |z| == |mem|
    ensures forall i :: 0 <= i < |mem| ==> z[i] == if f * 512 <= i < (f + n) * 512 then 0 else mem[i]
  {
    mem[..f * 512] + seq(n * 512, _ => 0) + mem[(f + n) * 512..]
  }

  /** alloc_pages: the size n * PAGE_SIZE is a 32-bit product, so it wraps for n
      of 2^20 and above. */
  function Alloc(lay: Layout, r: Ram, n: nat): (res: Result<(Ram, nat)>)
    requires Sized(lay, r)
    ensures res.Done? ==> Sized(lay, res.value.0) && res.value.1 == r.next
  {
    var pages := n * PAGE_SIZE % 0x1_0000_0000 / PAGE_SIZE;
    if r.next + pages > lay.endF then Panic
    else Done((r.(mem := ZeroPages(r.mem, r.next, pages), next := r.next + pages), r.next))
  }

  /** The entry that the book calls for: a pointer exactly when the child exists. */
  ghost function Entry(book: map<Label, nat>, l: Label, i: nat): nat
    requires !l.Page?
  {
    if Child(l, i) in book then Pointer(book[Child(l, i)]) else 0
  }

  ghost predicate EntryOk(r: Ram, l: Label, i: nat) {
    l in r.book && !l.Page? && r.book[l] * 512 + i < |r.mem| && r.mem[r.book[l] * 512 + i] == Entry(r.book, l, i)
  }

  ghost predicate PlaceOk(lay: Layout, r: Ram, l: Label) {
    l in r.book && lay.freeF <= r.book[l] < r.next
  }

  predicate Upper(l: Label) { l.Root? || l.Mid? }

  /** The table that owns a label. */
  function Parent(l: Label): Label {
    match l
    case Root(s) => l
    case Mid(s, i2) => Root(s)
    case Low(s, i2, i1) => Mid(s, i2)
    case Page(s, i2, i1, i0) => Low(s, i2, i1)
  }

  /** The shape of every page-table heap: labelled pages are distinct pages that
      were handed out, and upper tables hold exactly the pointers of the book. */
  ghost predicate Tree(lay: Layout, r: Ram) {
    && Sized(lay, r)
    && (forall l :: l in r.book ==> PlaceOk(lay, r, l))
    && (forall l {:trigger Parent(l)} :: l in r.book ==> Parent(l) in r.book)
    && (forall l, k :: l in r.book && k in r.book && r.book[l] == r.book[k] ==> l == k)
    && (forall l, i :: l in r.book && Upper(l) && 0 <= i < 512 ==> EntryOk(r, l, i))
  }

  // The clauses of Tree, one at a time.

  lemma TreeIsSized(lay: Layout, r: Ram)
    requires Tree(lay, r)
    ensures Sized(lay, r)
  {
  }

  lemma TreePlace(lay: Layout, r: Ram, l: Label)
    requires Tree(lay, r) && l in r.book
    ensures PlaceOk(lay, r, l) && Parent(l) in r.book
    ensures Sized(lay, r) && r.book[l] * 512 + 511 < |r.mem|
  {
    assert PlaceOk(lay, r, l);
  }

  lemma TreeEntry(lay: Layout, r: Ram, l: Label, i: nat)
    requires Tree(lay, r) && l in r.book && Upper(l) && i < 512
    ensures EntryOk(r, l, i)
  {
  }

  lemma TreeSlot(lay: Layout, r: Ram, l: Label, i: nat, k: Label, j: nat)
    requires Tree(lay, r) && l in r.book && k in r.book && i < 512 && j < 512
    ensures r.book[l] * 512 + i == r.book[k] * 512 + j <==> l == k && i == j
    ensures r.book[l] == r.book[k] <==> l == k
  {
  }

  /** No second table would need the same new child: the template makes the
      shared kernel tables before its root is copied. */
  ghost predicate Sole(book: map<Label, nat>, l: Label, i: nat) {
    l.Root? && i == KERNEL_VPN2 ==>
      Mid(0, KERNEL_VPN2) in book || (l == Root(0) && forall k :: k in book && k.Root? ==> k == l)
  }

  /** alloc_pages(1), the only size the kernel asks for. */
  function AllocPage(lay: Layout, r: Ram): (res: Result<(Ram, nat)>)
    requires Sized(lay, r)
    ensures res.Done? <==> r.next < lay.endF
    ensures res.Done? ==> res.value == (Ram(ZeroPages(r.mem, r.next, 1), r.next + 1, r.book), r.next)
  {
    Alloc(lay, r, 1)
  }

  /** A new, empty table below entry i. */
  function NewTable(lay: Layout, r: Ram, l: Label, table: nat, i: nat): (res: Result<(Ram, nat)>)
    requires Tree(lay, r) && l in r.book && Upper(l) && table == r.book[l]
    requires i < 512 && Sole(r.book, l, i) && Child(l, i) !in r.book
    ensures res.Done? ==> Tree(lay, res.value.0) && res.value.0.book == r.book[Child(l, i) := res.value.1]
  {
    assert PlaceOk(lay, r, l);
    var (r1, f) :- AllocPage(lay, r);
    Done((HangTable(lay, r, l, table, i, r1, f), f))
  }

  function HangTable(lay: Layout, r: Ram, l: Label, table: nat, i: nat, r1: Ram, f: nat): (r2: Ram)
    requires Tree(lay, r) && l in r.book && Upper(l) && table == r.book[l]
    requires i < 512 && Sole(r.book, l, i) && Child(l, i) !in r.book
    requires Sized(lay, r) && PlaceOk(lay, r, l)
    requires r.next < lay.endF && (r1, f) == (Ram(ZeroPages(r.mem, r.next, 1), r.next + 1, r.book), r.next)
    ensures Tree(lay, r2) && r2.book == r.book[Child(l, i) := f]
  {
    hide Pointer, ZeroPages, Tree;
    PointerFields(f);
    var r2 := Ram(r1.mem[table * 512 + i := PointerExpr(f * PAGE_SIZE)], r1.next, r1.book[Child(l, i) := f]);
    NewTableKeepsTree(lay, r, l, i, r2);
    r2
  }

  /** One step of the loop of map_page: the table below entry i, made if absent. */
  function Descend(lay: Layout, r: Ram, l: Label, table: nat, i: nat): (res: Result<(Ram, nat)>)
    requires Tree(lay, r) && l in r.book && Upper(l) && table == r.book[l]
    requires i < 512 && Sole(r.book, l, i)
    ensures res.Done? ==> Tree(lay, res.value.0) && res.value.0.book == r.book[Child(l, i) := res.value.1]
    ensures Child(l, i) in r.book ==> res.Done? && res.value.0 == r
  {
    PresentIffInBook(lay, r, l, i);
    if !Present(r.mem[table * 512 + i]) then NewTable(lay, r, l, table, i)
    else
      assert r.book == r.book[Child(l, i) := PteToPaddr(r.mem[table * 512 + i]) / PAGE_SIZE];
      Done((r, PteToPaddr(r.mem[table * 512 + i]) / PAGE_SIZE))
  }

  lemma PresentIffInBook(lay: Layout, r: Ram, l: Label, i: nat)
    requires Tree(lay, r) && l in r.book && Upper(l) && i < 512
    ensures r.book[l] * 512 + i < |r.mem|
    ensures var e := r.mem[r.book[l] * 512 + i];
      if Child(l, i) in r.book
      then e == Pointer(r.book[Child(l, i)]) && V(e) && Ppn(e) == r.book[Child(l, i)] && r.book[Child(l, i)] < lay.endF
      else e == 0 && !V(e)
  {
    assert EntryOk(r, l, i);
    if Child(l, i) in r.book {
      assert PlaceOk(lay, r, Child(l, i));
      PointerFields(r.book[Child(l, i)]);
    }
  }

  /** A zeroed page hung under entry i is a table without entries. */
  lemma NewTableKeepsTree(lay: Layout, r: Ram, l: Label, i: nat, r2: Ram)
    requires Tree(lay, r) && l in r.book && Upper(l) && i < 512 && Sole(r.book, l, i)
    requires Child(l, i) !in r.book && r.next + 1 <= lay.endF
    requires Pointer(r.next) < WORD_LIMIT
    requires PlaceOk(lay, r, l)
    requires r2 == Ram(ZeroPages(r.mem, r.next, 1)[r.book[l] * 512 + i := Pointer(r.next)], r.next + 1,
                       r.book[Child(l, i) := r.next])
    ensures Tree(lay, r2)
  {
    var c := Child(l, i);
    forall k | k in r2.book ensures PlaceOk(lay, r2, k) {
      if k != c { assert PlaceOk(lay, r, k); }
    }
    forall k | k in r2.book ensures Parent(k) in r2.book {
      assert k in r.book ==> Parent(k) in r.book;
    }
    forall k, j | k in r2.book && Upper(k) && 0 <= j < 512 ensures EntryOk(r2, k, j) {
      NewTableEntry(lay, r, l, i, r2, k, j);
    }
    forall k, j | k in r2.book && j in r2.book && r2.book[k] == r2.book[j] ensures k == j {
      assert k in r.book ==> PlaceOk(lay, r, k);
      assert j in r.book ==> PlaceOk(lay, r, j);
    }
  }

  lemma NewTableEntry(lay: Layout, r: Ram, l: Label, i: nat, r2: Ram, k: Label, j: nat)
    requires Tree(lay, r) && l in r.book && Upper(l) && i < 512 && Sole(r.book, l, i)
    requires Child(l, i) !in r.book && r.next + 1 <= lay.endF
    requires Pointer(r.next) < WORD_LIMIT
    requires PlaceOk(lay, r, l)
    requires r2 == Ram(ZeroPages(r.mem, r.next, 1)[r.book[l] * 512 + i := Pointer(r.next)], r.next + 1,
                       r.book[Child(l, i) := r.next])
    requires k in r2.book && Upper(k) && j < 512
    ensures EntryOk(r2, k, j)
  {
    hide Pointer;
    if k == Child(l, i) {
      assert Parent(Child(k, j)) == k;
    } else {
      assert PlaceOk(lay, r, k);
      assert EntryOk(r, k, j);
    }
  }

  /** The table that holds the leaf entry of an address under a root. */
  function LowLabel(l: Label, va: nat): Label
    requires l.Root?
  {
    Child(Child(l, Vpn(va, 2)), Vpn(va, 1))
  }

  /** map_page. The loop over the two upper levels is written out. */
  function MapPage(lay: Layout, r: Ram, l: Label, root: nat, va: Word, pa: Word, flags: nat): (res: Result<Ram>)
    requires Tree(lay, r) && l in r.book && l.Root? && root == r.book[l]
    requires Flags(flags) && pa < PPN_LIMIT * PAGE_SIZE
    requires Sole(r.book, l, Vpn(va, 2))
    ensures res.Done? ==>
      && Tree(lay, res.value)
      && va % PAGE_SIZE == 0 && pa % PAGE_SIZE == 0 && va < 0x40_0000_0000
      && LowLabel(l, va) in res.value.book
  {
    if !IsAligned(va) || !IsAligned(pa) || BeyondLowerHalf(va) then Panic
    else
      var i2, i1 := PtIndex(va, 2), PtIndex(va, 1);
      var (r1, mid) :- Descend(lay, r, l, root, i2);
      var (r2, low) :- Descend(lay, r1, Child(l, i2), mid, i1);
      Done(WriteLeaf(lay, r2, Child(Child(l, i2), i1), low, PtIndex(va, 0), LeafExpr(pa, flags, lay.attr)))
  }

  /** The last statement of map_page. */
  function WriteLeaf(lay: Layout, r: Ram, l: Label, low: nat, i: nat, pte: Word): (r': Ram)
    requires Tree(lay, r) && l in r.book && l.Low? && low == r.book[l] && i < 512
    ensures Tree(lay, r') && r'.book == r.book
  {
    assert PlaceOk(lay, r, l);
    LeafKeepsTree(lay, r, l, i, pte);
    r.(mem := r.mem[low * 512 + i := pte])
  }

  /** Upper tables do not see what is written into a last-level table. */
  lemma LeafKeepsTree(lay: Layout, r: Ram, l: Label, i: nat, pte: Word)
    requires Tree(lay, r) && l in r.book && !Upper(l) && i < 512 && r.book[l] * 512 + i < |r.mem|
    ensures Tree(lay, r.(mem := r.mem[r.book[l] * 512 + i := pte]))
  {
    var r' := r.(mem := r.mem[r.book[l] * 512 + i := pte]);
    forall k, j | k in r'.book && Upper(k) && 0 <= j < 512 ensures EntryOk(r', k, j) {
      assert EntryOk(r, k, j);
    }
    forall k | k in r'.book ensures PlaceOk(lay, r', k) && Parent(k) in r'.book {
      assert PlaceOk(lay, r, k);
    }
  }

  // ---- bytes in memory ----

  /** Byte-addressed view of memory, little-endian within a word. */
  function RamByte(mem: Mem, pa: nat): Byte
    requires pa / 8 < |mem|
  {
    ByteOf(mem[pa / 8], pa % 8)
  }

  function StoreByte(mem: Mem, pa: nat, b: Byte): (mem': Mem)
    requires pa / 8 < |mem|
    ensures |mem'| == |mem|
  {
    WordIsEightBytes();
    WithByteInRange(mem[pa / 8], pa % 8, b, 8);
    mem[pa / 8 := WithByte(mem[pa / 8], pa % 8, b)]
  }

  /** memcpy of the first n of some bytes to address pa. */
  function CopyBytes(mem: Mem, pa: nat, bytes: seq<Byte>, n: nat): (mem': Mem)
    requires n <= |bytes| && (pa + |bytes| + 7) / 8 <= |mem|
    ensures |mem'| == |mem|
  {
    if n == 0 then mem else StoreByte(CopyBytes(mem, pa, bytes, n - 1), pa + n - 1, bytes[n - 1])
  }

  /** memcpy of a whole page. */
  function CopyPage(mem: Mem, dst: nat, src: nat): (mem': Mem)
    requires (dst + 1) * 512 <= |mem| && (src + 1) * 512 <= |mem|
    ensures |mem'| == |mem|
    ensures forall w :: 0 <= w < |mem| ==>
      mem'[w] == if dst * 512 <= w < (dst + 1) * 512 then mem[src * 512 + (w - dst * 512)] else mem[w]
  {
    mem[..dst * 512] + mem[src * 512..(src + 1) * 512] + mem[(dst + 1) * 512..]
  }

  lemma RamByteAfterStore(mem: Mem, pa: nat, b: Byte, a: nat)
    requires pa / 8 < |mem| && a / 8 < |mem|
    ensures RamByte(StoreByte(mem, pa, b), a) == if a == pa then b else RamByte(mem, a)
  {
    ByteOfWithByte(mem[pa / 8], pa % 8, b, a % 8);
  }

  lemma {:induction false} RamByteAfterCopy(mem: Mem, pa: nat, bytes: seq<Byte>, n: nat, a: nat)
    requires n <= |bytes| && (pa + |bytes| + 7) / 8 <= |mem| && a / 8 < |mem|
    ensures RamByte(CopyBytes(mem, pa, bytes, n), a) == if pa <= a < pa + n then bytes[a - pa] else RamByte(mem, a)
  {
    if n > 0 {
      RamByteAfterStore(CopyBytes(mem, pa, bytes, n - 1), pa + n - 1, bytes[n - 1], a);
      RamByteAfterCopy(mem, pa, bytes, n - 1, a);
    }
  }

  /** A copy changes no word outside its range. */
  lemma {:induction false} CopyBytesFrame(mem: Mem, pa: nat, bytes: seq<Byte>, n: nat, w: nat)
    requires n <= |bytes| && (pa + |bytes| + 7) / 8 <= |mem| && w < |mem|
    requires w < pa / 8 || w >= (pa + |bytes| + 7) / 8
    ensures CopyBytes(mem, pa, bytes, n)[w] == mem[w]
  {
    if n > 0 {
      CopyBytesFrame(mem, pa, bytes, n - 1, w);
    }
  }

  // ---- building address spaces ----

  /** A change to pages that are not in the book keeps the tables. */
  lemma FreshKeepsTree(lay: Layout, r: Ram, r': Ram)
    requires Tree(lay, r) && Sized(lay, r') && r'.book == r.book && r'.next >= r.next
    requires forall w :: 0 <= w < r.next * 512 ==> r'.mem[w] == r.mem[w]
    ensures Tree(lay, r')
  {
    forall k | k in r'.book ensures PlaceOk(lay, r', k) && Parent(k) in r'.book {
      assert PlaceOk(lay, r, k);
    }
    forall k, j | k in r'.book && Upper(k) && 0 <= j < 512 ensures EntryOk(r', k, j) {
      assert PlaceOk(lay, r, k) && EntryOk(r, k, j);
    }
  }

  /** The virtual page of space s that va lies in. */
  function UserLabel(s: nat, va: nat): Label {
    Page(s, 0, Vpn(va, 1), Vpn(va, 0))
  }

  /** Allocate a page, copy some bytes to its start, and map it for the user at
      va: the body of the load loop of create_process2, and, without bytes, of
      handle_page_fault. */
  function GivePage(lay: Layout, r: Ram, s: nat, root: nat, va: Word, bytes: seq<Byte>): (res: Result<Ram>)
    requires Tree(lay, r) && Root(s) in r.book && root == r.book[Root(s)]
    requires |bytes| <= PAGE_SIZE && Vpn(va, 2) != KERNEL_VPN2
  {
    var (r1, f) :- AllocPage(lay, r);
    MapUser(lay, FillFresh(lay, r, r1, f, bytes), s, root, va, f)
  }

  /** Map page f for the user at va, and note it in the book. */
  function MapUser(lay: Layout, r: Ram, s: nat, root: nat, va: Word, f: nat): (res: Result<Ram>)
    requires Tree(lay, r) && Root(s) in r.book && root == r.book[Root(s)]
    requires f < PPN_LIMIT && Vpn(va, 2) != KERNEL_VPN2
  {
    var r' :- MapPage(lay, r, Root(s), root, va, f * PAGE_SIZE, USER_RWX);
    Done(r'.(book := r'.book[UserLabel(s, va) := f]))
  }

  function FillFresh(lay: Layout, r: Ram, r1: Ram, f: nat, bytes: seq<Byte>): (r2: Ram)
    requires Tree(lay, r) && r.next < lay.endF && |bytes| <= PAGE_SIZE
    requires (r1, f) == (Ram(ZeroPages(r.mem, r.next, 1), r.next + 1, r.book), r.next)
    ensures Tree(lay, r2) && r2.book == r.book && r2.next == r.next + 1
  {
    forall w | 0 <= w < r.next * 512
      ensures CopyBytes(r1.mem, f * PAGE_SIZE, bytes, |bytes|)[w] == r.mem[w]
    {
      CopyBytesFrame(r1.mem, f * PAGE_SIZE, bytes, |bytes|, w);
    }
    FreshKeepsTree(lay, r, r1.(mem := CopyBytes(r1.mem, f * PAGE_SIZE, bytes, |bytes|)));
    r1.(mem := CopyBytes(r1.mem, f * PAGE_SIZE, bytes, |bytes|))
  }
}
