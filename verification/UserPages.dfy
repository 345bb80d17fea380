/** Handing a page to a user space: what it does to the heap, to the other
    spaces, and to every byte that any process can read. */
module UserPages {
  import opened Words
  import opened Sv39
  import opened Pte
  import opened PhysMemory
  import opened PageTables
  import opened Heap

  ghost predicate CanGive(lay: Layout, r: Ram, s: nat, va: Word, bytes: seq<Byte>) {
    && HeapOk(lay, r) && s > 0 && Root(s) in r.book
    && InUserRange(va) && va % PAGE_SIZE == 0 && UserLabel(s, va) !in r.book
    && |bytes| <= PAGE_SIZE && Vpn(va, 2) != KERNEL_VPN2
    && GivePage(lay, r, s, r.book[Root(s)], va, bytes).Done?
  }

  /** The page was there to give: everything before the last bookkeeping step. */
  ghost predicate Given(lay: Layout, r: Ram, r2: Ram, r3: Ram, r': Ram, s: nat, va: Word, bytes: seq<Byte>) {
    var (f, low) := (r.next, LowLabel(Root(s), va));
    && Tree(lay, r2) && r2.book == r.book && r2.next == f + 1 && f < lay.endF
    && |bytes| <= PAGE_SIZE && |r2.mem| == |r.mem|
    && r2.mem == CopyBytes(ZeroPages(r.mem, f, 1), f * PAGE_SIZE, bytes, |bytes|)
    && LeafPte(f, USER_RWX, lay.attr) < WORD_LIMIT
    && Installs(lay, r2, r3, low, Vpn(va, 0), LeafPte(f, USER_RWX, lay.attr))
    && r3.next - |r3.book| == r2.next - |r2.book|
    && r' == r3.(book := r3.book[UserLabel(s, va) := f])
  }

  lemma GiveSteps(lay: Layout, r: Ram, s: nat, va: Word, bytes: seq<Byte>) returns (r2: Ram, r3: Ram)
    requires Tree(lay, r) && Root(s) in r.book && |bytes| <= PAGE_SIZE && Vpn(va, 2) != KERNEL_VPN2
    requires GivePage(lay, r, s, r.book[Root(s)], va, bytes).Done?
    ensures Given(lay, r, r2, r3, GivePage(lay, r, s, r.book[Root(s)], va, bytes).value, s, va, bytes)
  {
    hide MapUser, FillFresh;
    r2 := FillFresh(lay, r, AllocPage(lay, r).value.0, r.next, bytes);
    FilledMemory(lay, r, bytes);
    r3 := MapUserSteps(lay, r2, s, va, r.next);
  }

  lemma FilledMemory(lay: Layout, r: Ram, bytes: seq<Byte>)
    requires Tree(lay, r) && r.next < lay.endF && |bytes| <= PAGE_SIZE
    ensures FillFresh(lay, r, AllocPage(lay, r).value.0, r.next, bytes).mem
         == CopyBytes(ZeroPages(r.mem, r.next, 1), r.next * PAGE_SIZE, bytes, |bytes|)
  {
  }

  lemma MapUserSteps(lay: Layout, r: Ram, s: nat, va: Word, f: nat) returns (r3: Ram)
    requires Tree(lay, r) && Root(s) in r.book && f < PPN_LIMIT && Vpn(va, 2) != KERNEL_VPN2
    requires MapUser(lay, r, s, r.book[Root(s)], va, f).Done?
    ensures MapUser(lay, r, s, r.book[Root(s)], va, f).value == r3.(book := r3.book[UserLabel(s, va) := f])
    ensures LeafPte(f, USER_RWX, lay.attr) < WORD_LIMIT
    ensures Installs(lay, r, r3, LowLabel(Root(s), va), Vpn(va, 0), LeafPte(f, USER_RWX, lay.attr))
    ensures r3.next - |r3.book| == r.next - |r.book|
  {
    hide MapPage, Installs;
    MapPageBook(lay, r, Root(s), va, f * PAGE_SIZE, USER_RWX);
    r3 := MapPage(lay, r, Root(s), r.book[Root(s)], va, f * PAGE_SIZE, USER_RWX).value;
    MapPageInstalls(lay, r, Root(s), va, f * PAGE_SIZE, USER_RWX);
  }

  /** Words of pages handed out earlier to user spaces, and of last-level tables,
      are only touched at the new leaf. */
  lemma GiveKeepsWord(lay: Layout, r: Ram, r2: Ram, r3: Ram, r': Ram, s: nat, va: Word, bytes: seq<Byte>, l: Label, i: nat)
    requires Tree(lay, r) && Given(lay, r, r2, r3, r', s, va, bytes)
    requires l in r.book && !Upper(l) && i < 512 && (l != LowLabel(Root(s), va) || i != Vpn(va, 0))
    ensures l in r'.book && (l != UserLabel(s, va) ==> r'.book[l] == r.book[l])
    ensures r.book[l] * 512 + i < |r.mem| == |r'.mem|
    ensures r'.mem[r.book[l] * 512 + i] == r.mem[r.book[l] * 512 + i]
  {
    hide Tree, CopyBytes;
    var (f, low, w) := (r.next, LowLabel(Root(s), va), r.book[l] * 512 + i);
    TreePlace(lay, r, l);
    TreeIsSized(lay, r2);
    LowWordsAreBelow(lay, r2, l, i);
    assert WordEffect(r2, r3, low, Vpn(va, 0), LeafPte(f, USER_RWX, lay.attr), w);
    TreeSlot(lay, r3, low, Vpn(va, 0), l, i);
    CopyBytesFrame(ZeroPages(r.mem, f, 1), f * PAGE_SIZE, bytes, |bytes|, w);
  }

  /** The new page holds the bytes copied and zeros. */
  lemma GiveFillsPage(lay: Layout, r: Ram, r2: Ram, r3: Ram, r': Ram, s: nat, va: Word, bytes: seq<Byte>, o: nat)
    requires Tree(lay, r) && Given(lay, r, r2, r3, r', s, va, bytes) && o < PAGE_SIZE
    ensures (r.next * PAGE_SIZE + o) / 8 < |r'.mem|
    ensures RamByte(r'.mem, r.next * PAGE_SIZE + o) == if o < |bytes| then bytes[o] else 0
  {
    hide Tree, CopyBytes, RamByte, Installs, Vpn;
    TreeIsSized(lay, r);
    TreeIsSized(lay, r2);
    var (f, low) := (r.next, LowLabel(Root(s), va));
    var pa := f * PAGE_SIZE + o;
    PageWordOf(f, o);
    FreshPageStays(lay, r, r2, r3, low, Vpn(va, 0), LeafPte(f, USER_RWX, lay.attr), pa / 8);
    RamByteAfterCopy(ZeroPages(r.mem, f, 1), f * PAGE_SIZE, bytes, |bytes|, pa);
    SameWordSameByte(r3.mem, r2.mem, pa);
    ZeroWordZeroByte(ZeroPages(r.mem, f, 1), pa);
  }

  lemma PageWordOf(f: nat, o: nat)
    requires o < PAGE_SIZE
    ensures (f * PAGE_SIZE + o) / 8 / 512 == f && f * 512 <= (f * PAGE_SIZE + o) / 8 < (f + 1) * 512
  {
  }

  /** Installing a leaf leaves the page just handed out as it is. */
  lemma FreshPageStays(lay: Layout, r: Ram, r2: Ram, r3: Ram, low: Label, k: nat, pte: Word, w: nat)
    requires Tree(lay, r) && r2.book == r.book && r2.next == r.next + 1 && Installs(lay, r2, r3, low, k, pte)
    requires w / 512 == r.next && w < |r2.mem|
    ensures |r3.mem| == |r2.mem| && r3.mem[w] == r2.mem[w]
  {
    assert BelowUpper(r2, w) by {
      hide Installs, Tree;
      forall k | k in r2.book && Upper(k) ensures r2.book[k] != w / 512 { TreePlace(lay, r, k); }
    }
    assert WordEffect(r2, r3, low, k, pte, w);
    if low in r.book { TreePlace(lay, r, low); }
  }

  lemma SameWordSameByte(m: Mem, m': Mem, pa: nat)
    requires pa / 8 < |m| && pa / 8 < |m'| && m[pa / 8] == m'[pa / 8]
    ensures RamByte(m, pa) == RamByte(m', pa)
  {
  }

  lemma ZeroWordZeroByte(m: Mem, pa: nat)
    requires pa / 8 < |m| && m[pa / 8] == 0
    ensures RamByte(m, pa) == 0
  {
    ZeroBytes(pa % 8);
  }

  /** Handing out a page keeps the heap an exact encoding of the book. */
  lemma GiveKeepsHeap(lay: Layout, r: Ram, r2: Ram, r3: Ram, r': Ram, s: nat, va: Word, bytes: seq<Byte>)
    requires HeapOk(lay, r) && s > 0 && InUserRange(va) && UserLabel(s, va) !in r.book
    requires Given(lay, r, r2, r3, r', s, va, bytes)
    ensures HeapOk(lay, r')
  {
    GiveKeepsTree(lay, r, r2, r3, r', s, va, bytes);
    GiveKeepsKnown(lay, r, r2, r3, r', s, va, bytes);
    forall l, i | l in r'.book && l.Low? && 0 <= i < 512 ensures LeafOk(lay, r', lay.endF, l, i) {
      GiveKeepsLeaf(lay, r, r2, r3, r', s, va, bytes, l, i);
    }
    forall f | BASE_F <= f < lay.endF ensures KernelLow(f) in r'.book {
      assert KernelLow(f) in r.book;
    }
  }

  lemma GiveKeepsTree(lay: Layout, r: Ram, r2: Ram, r3: Ram, r': Ram, s: nat, va: Word, bytes: seq<Byte>)
    requires HeapOk(lay, r) && Given(lay, r, r2, r3, r', s, va, bytes)
    requires InUserRange(va) && UserLabel(s, va) !in r.book
    ensures Tree(lay, r')
  {
    hide Tree, CopyBytes, WordEffect;
    UserVpns(va);
    TreeIsSized(lay, r);
    forall k | k in r3.book ensures r3.book[k] != r.next {
      if k in r.book { TreePlace(lay, r, k); }
    }
    assert UserLabel(s, va) !in r3.book;
    RecordKeepsTree(lay, r3, r', LowLabel(Root(s), va), Vpn(va, 0), r.next);
  }

  /** Noting down a page that no label has keeps the tables. */
  lemma RecordKeepsTree(lay: Layout, r: Ram, r': Ram, low: Label, i: nat, f: nat)
    requires Tree(lay, r) && low.Low? && low in r.book && lay.freeF <= f < r.next
    requires r' == r.(book := r.book[Child(low, i) := f]) && Child(low, i) !in r.book
    requires forall k :: k in r.book ==> r.book[k] != f
    ensures Tree(lay, r')
  {
    var c := Child(low, i);
    forall k | k in r'.book ensures PlaceOk(lay, r', k) {
      assert k != c ==> PlaceOk(lay, r, k);
    }
    forall k | k in r'.book ensures Parent(k) in r'.book {
      assert k != c ==> Parent(k) in r.book;
    }
    forall k, j | k in r'.book && Upper(k) && 0 <= j < 512 ensures EntryOk(r', k, j) {
      assert EntryOk(r, k, j);
    }
  }

  lemma GiveKeepsKnown(lay: Layout, r: Ram, r2: Ram, r3: Ram, r': Ram, s: nat, va: Word, bytes: seq<Byte>)
    requires HeapOk(lay, r) && s > 0 && InUserRange(va) && Given(lay, r, r2, r3, r', s, va, bytes)
    ensures forall l :: l in r'.book ==> Known(lay, l)
  {
    UserVpns(va);
  }

  lemma GiveKeepsLeaf(lay: Layout, r: Ram, r2: Ram, r3: Ram, r': Ram, s: nat, va: Word, bytes: seq<Byte>, l: Label, i: nat)
    requires HeapOk(lay, r) && s > 0 && InUserRange(va) && Given(lay, r, r2, r3, r', s, va, bytes)
    requires l in r'.book && l.Low? && i < 512
    ensures LeafOk(lay, r', lay.endF, l, i)
  {
    UserVpns(va);
    HeapIsTree(lay, r);
    hide Tree, CopyBytes, HeapOk, Installs, LeafOk, Vpn;
    var (low, k) := (LowLabel(Root(s), va), Vpn(va, 0));
    if l in r.book && !(l == low && i == k) {
      GiveKeepsWord(lay, r, r2, r3, r', s, va, bytes, l, i);
      GiveExtendsBook(lay, r, r2, r3, r', s, va, bytes);
      KeptLeaf(lay, r, r', l, i, Child(low, k));
    } else {
      NewLeaf(lay, r2, r3, r', low, k, r.next, l, i);
    }
  }

  /** An entry whose word stayed, when only the page below another entry is new. */
  lemma KeptLeaf(lay: Layout, r: Ram, r': Ram, l: Label, i: nat, added: Label)
    requires HeapOk(lay, r) && l in r.book && l.Low? && i < 512 && Child(l, i) != added
    requires l in r'.book && r'.book[l] == r.book[l] && r.book[l] * 512 + i < |r.mem| == |r'.mem|
    requires r'.mem[r.book[l] * 512 + i] == r.mem[r.book[l] * 512 + i]
    requires forall x :: x in r.book && x != added ==> x in r'.book && r'.book[x] == r.book[x]
    requires forall x :: x in r'.book && x !in r.book ==> x == added || !x.Page?
    ensures LeafOk(lay, r', lay.endF, l, i)
  {
    HeapLeaf(lay, r, l, i);
    hide HeapOk;
    SameLeafEntry(lay, r.book, r'.book, l, i);
  }

  /** The new entry, and the empty ones of a new table. */
  lemma NewLeaf(lay: Layout, r2: Ram, r3: Ram, r': Ram, low: Label, k: nat, f: nat, l: Label, i: nat)
    requires low.Low? && low.s > 0 && low.i2 != KERNEL_VPN2 && k < 512 && LeafPte(f, USER_RWX, lay.attr) < WORD_LIMIT
    requires Installs(lay, r2, r3, low, k, LeafPte(f, USER_RWX, lay.attr)) && r' == r3.(book := r3.book[Child(low, k) := f])
    requires l in r'.book && l.Low? && i < 512 && ((l == low && i == k) || l !in r2.book)
    ensures LeafOk(lay, r', lay.endF, l, i)
  {
    TreePlace(lay, r3, l);
    TreeIsSized(lay, r3);
    assert WordEffect(r2, r3, low, k, LeafPte(f, USER_RWX, lay.attr), r'.book[l] * 512 + i);
    if l !in r2.book && Child(l, i) in r2.book { TreePlace(lay, r2, Child(l, i)); NoOrphan(lay, r2, l, i); }
    hide Tree, LeafEntry;
    EntryOfPage(lay, r'.book, l, i);
  }

  lemma NoOrphan(lay: Layout, r: Ram, l: Label, i: nat)
    requires Tree(lay, r) && l.Low? && Child(l, i) in r.book
    ensures l in r.book
  {
    assert Parent(Child(l, i)) in r.book;
  }

  /** Outside the template, an entry is called for exactly by a page in the book. */
  lemma EntryOfPage(lay: Layout, book: map<Label, nat>, l: Label, i: nat)
    requires l.Low? && l.s > 0
    ensures LeafEntry(lay, book, lay.endF, l, i) ==
      if Child(l, i) in book then LeafPte(book[Child(l, i)], USER_RWX, lay.attr) else 0
  {
  }

  lemma SameLeafEntry(lay: Layout, book: map<Label, nat>, book': map<Label, nat>, l: Label, i: nat)
    requires l.Low? && (Child(l, i) in book <==> Child(l, i) in book')
    requires Child(l, i) in book ==> book'[Child(l, i)] == book[Child(l, i)]
    ensures LeafEntry(lay, book', lay.endF, l, i) == LeafEntry(lay, book, lay.endF, l, i)
  {
  }

  /** The book gains the page and at most the two tables above it. */
  lemma GiveExtendsBook(lay: Layout, r: Ram, r2: Ram, r3: Ram, r': Ram, s: nat, va: Word, bytes: seq<Byte>)
    requires Tree(lay, r) && Given(lay, r, r2, r3, r', s, va, bytes)
    ensures forall x :: x in r.book && x != UserLabel(s, va) ==> x in r'.book && r'.book[x] == r.book[x]
    ensures forall x :: x in r'.book && x !in r.book ==> x == UserLabel(s, va) || !x.Page?
    ensures forall x :: x in r'.book && x.Root? ==> x in r.book
    ensures r'.next > r.next && UserLabel(s, va) in r'.book
    ensures UserLabel(s, va) !in r.book && Counted(lay, r) ==> Counted(lay, r')
  {
    hide Tree, WordEffect, CopyBytes;
  }

  /** Exactly the page and the two tables above it are in the book afterwards. */
  lemma GiveTables(lay: Layout, r: Ram, r2: Ram, r3: Ram, r': Ram, s: nat, va: Word, bytes: seq<Byte>)
    requires Given(lay, r, r2, r3, r', s, va, bytes)
    ensures forall x :: x in r'.book <==>
      x in r.book || x == UserLabel(s, va) || x == LowLabel(Root(s), va) || x == Parent(LowLabel(Root(s), va))
  {
    var low := LowLabel(Root(s), va);
    assert low in r3.book && Parent(low) in r3.book by { TreePlace(lay, r3, low); }
    hide Tree, WordEffect, CopyBytes;
  }
}
