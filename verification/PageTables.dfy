/** What the kernel's page-table code means to the hardware walk of Sv39. */
module PageTables {
  import opened Words
  import opened Sv39
  import opened Pte
  import opened PhysMemory

  /** The leaf that the walk makes of a last-level entry. */
  function ReadLeaf(pte: Word): Leaf {
    if !V(pte) || (!R(pte) && W(pte)) || !(R(pte) || X(pte)) then NoLeaf else Leaf(0, pte)
  }

  /** The walk read off the book: an address resolves through its last-level
      table, if that exists. */
  ghost function BookWalk(lay: Layout, r: Ram, l: Label, va: nat): Leaf
    requires Tree(lay, r) && l.Root?
  {
    var low := LowLabel(l, va);
    if Canonical(va) && low in r.book then
      assert PlaceOk(lay, r, low);
      ReadLeaf(r.mem[r.book[low] * 512 + Vpn(va, 0)])
    else NoLeaf
  }

  /** The hardware walk of any root of the heap is the walk of the book. */
  lemma WalkIsBookWalk(lay: Layout, r: Ram, l: Label, va: nat)
    requires Tree(lay, r) && l in r.book && l.Root?
    ensures Walk(r.mem, r.book[l], va) == BookWalk(lay, r, l, va)
  {
    hide Tree;
    var mid, low := Child(l, Vpn(va, 2)), LowLabel(l, va);
    if Canonical(va) {
      PresentIffInBook(lay, r, l, Vpn(va, 2));
      if low in r.book { TreePlace(lay, r, low); }
      if mid in r.book {
        PointerFields(r.book[mid]);
        PresentIffInBook(lay, r, mid, Vpn(va, 1));
        if low in r.book {
          PointerFields(r.book[low]);
          LastLevel(r.mem, r.book[low], va);
        }
      }
    }
  }

  lemma LastLevel(mem: Mem, table: nat, va: nat)
    requires table * 512 + 511 < |mem|
    ensures WalkFrom(mem, table, va, 0) == ReadLeaf(mem[table * 512 + Vpn(va, 0)])
  {
  }

  /** A word of a page handed out before that is no word of an upper table. */
  ghost predicate BelowUpper(r: Ram, w: nat) {
    w < r.next * 512 && forall k :: k in r.book && Upper(k) ==> r.book[k] != w / 512
  }

  lemma DescendEffect(lay: Layout, r: Ram, l: Label, i: nat, w: nat)
    requires Tree(lay, r) && l in r.book && Upper(l) && i < 512 && Sole(r.book, l, i)
    requires Descend(lay, r, l, r.book[l], i).Done?
    requires w < |r.mem|
    ensures var (r', f) := Descend(lay, r, l, r.book[l], i).value;
      && r'.next >= r.next
      && (BelowUpper(r, w) ==> r'.mem[w] == r.mem[w] && BelowUpper(r', w))
      && (Child(l, i) !in r.book && w / 512 == f ==> r'.mem[w] == 0)
  {
    PresentIffInBook(lay, r, l, i);
    assert PlaceOk(lay, r, l);
    PointerFields(r.next);
  }

  /** The word after one leaf entry has been installed. */
  ghost predicate WordEffect(r: Ram, r': Ram, low: Label, i: nat, pte: Word, w: nat)
    requires low in r'.book && w < |r.mem| && |r'.mem| == |r.mem|
  {
    var slot := r'.book[low] * 512 + i;
    && (w == slot ==> r'.mem[w] == pte)
    && (w != slot && BelowUpper(r, w) ==> r'.mem[w] == r.mem[w])
    && (w != slot && low !in r.book && w / 512 == r'.book[low] ==> r'.mem[w] == 0)
  }

  /** From r to r', entry i of the last-level table `low` received `pte`, and
      tables were added as needed; nothing else below the upper tables changed. */
  ghost predicate Installs(lay: Layout, r: Ram, r': Ram, low: Label, i: nat, pte: Word) {
    && Tree(lay, r) && Tree(lay, r') && r'.next >= r.next && |r'.mem| == |r.mem|
    && low.Low? && low in r'.book && i < 512
    && (forall x :: x in r.book ==> x in r'.book && r'.book[x] == r.book[x])
    && (forall x :: x in r'.book ==> x in r.book || ((x == low || x == Parent(low)) && r'.book[x] >= r.next))
    && (forall w :: 0 <= w < |r.mem| ==> WordEffect(r, r', low, i, pte, w))
  }

  lemma MapPageInstalls(lay: Layout, r: Ram, l: Label, va: Word, pa: Word, flags: nat)
    requires Tree(lay, r) && l in r.book && l.Root?
    requires Flags(flags) && pa < PPN_LIMIT * PAGE_SIZE && Sole(r.book, l, Vpn(va, 2))
    requires MapPage(lay, r, l, r.book[l], va, pa, flags).Done?
    ensures LeafPte(pa / PAGE_SIZE, flags, lay.attr) < WORD_LIMIT
    ensures Installs(lay, r, MapPage(lay, r, l, r.book[l], va, pa, flags).value, LowLabel(l, va), Vpn(va, 0),
                     LeafPte(pa / PAGE_SIZE, flags, lay.attr))
  {
    hide MapPage, WordEffect;
    var r' := MapPage(lay, r, l, r.book[l], va, pa, flags).value;
    LeafFields(pa / PAGE_SIZE, flags, lay.attr);
    MapPageBook(lay, r, l, va, pa, flags);
    forall w | 0 <= w < |r.mem|
      ensures WordEffect(r, r', LowLabel(l, va), Vpn(va, 0), LeafPte(pa / PAGE_SIZE, flags, lay.attr), w)
    {
      MapPageWord(lay, r, l, va, pa, flags, w);
    }
  }

  /** map_page hands out pages for the two tables of its path only. */
  lemma MapPageBook(lay: Layout, r: Ram, l: Label, va: Word, pa: Word, flags: nat)
    requires Tree(lay, r) && l in r.book && l.Root?
    requires Flags(flags) && pa < PPN_LIMIT * PAGE_SIZE && Sole(r.book, l, Vpn(va, 2))
    requires MapPage(lay, r, l, r.book[l], va, pa, flags).Done?
    ensures var r', low := MapPage(lay, r, l, r.book[l], va, pa, flags).value, LowLabel(l, va);
      && r'.next >= r.next && |r'.mem| == |r.mem|
      && (forall x :: x in r.book ==> x in r'.book && r'.book[x] == r.book[x])
      && (forall x :: x in r'.book ==> x in r.book || ((x == low || x == Parent(low)) && r'.book[x] >= r.next))
      && r'.next - |r'.book| == r.next - |r.book|
  {
    hide Descend, PtIndex, LeafExpr;
    KeptLabels(lay, r, l, PtIndex(va, 2));
    var (r1, mid) := Descend(lay, r, l, r.book[l], PtIndex(va, 2)).value;
    KeptLabels(lay, r1, Child(l, PtIndex(va, 2)), PtIndex(va, 1));
  }

  lemma MapPageWord(lay: Layout, r: Ram, l: Label, va: Word, pa: Word, flags: nat, w: nat)
    requires Tree(lay, r) && l in r.book && l.Root?
    requires Flags(flags) && pa < PPN_LIMIT * PAGE_SIZE && Sole(r.book, l, Vpn(va, 2))
    requires MapPage(lay, r, l, r.book[l], va, pa, flags).Done?
    requires LeafPte(pa / PAGE_SIZE, flags, lay.attr) < WORD_LIMIT && w < |r.mem|
    ensures WordEffect(r, MapPage(lay, r, l, r.book[l], va, pa, flags).value, LowLabel(l, va), Vpn(va, 0),
                       LeafPte(pa / PAGE_SIZE, flags, lay.attr), w)
  {
    hide Descend, PtIndex, LeafExpr, LeafPte;
    DescendEffect(lay, r, l, PtIndex(va, 2), w);
    var (r1, mid) := Descend(lay, r, l, r.book[l], PtIndex(va, 2)).value;
    DescendEffect(lay, r1, Child(l, PtIndex(va, 2)), PtIndex(va, 1), w);
  }

  lemma KeptLabels(lay: Layout, r: Ram, l: Label, i: nat)
    requires Tree(lay, r) && l in r.book && Upper(l) && i < 512 && Sole(r.book, l, i)
    requires Descend(lay, r, l, r.book[l], i).Done?
    ensures var r' := Descend(lay, r, l, r.book[l], i).value.0;
      && (forall x :: x in r.book ==> x in r'.book && r'.book[x] == r.book[x])
      && (forall x :: x in r'.book ==> x in r.book || (x == Child(l, i) && r'.book[x] >= r.next))
      && r'.next >= r.next && |r'.mem| == |r.mem|
      && r'.next - |r'.book| == r.next - |r.book|
  {
    PresentIffInBook(lay, r, l, i);
  }

  /** map_page is a finite-map update of the hardware walk: the page of va gets
      the new leaf, in this space and, for a kernel address, in every space that
      shares the kernel tables; all other addresses of all spaces keep theirs. */
  lemma MapPageUpdatesWalk(lay: Layout, r: Ram, l: Label, va: Word, pa: Word, flags: nat, k: Label, va': nat)
    requires Tree(lay, r) && l in r.book && l.Root? && k in r.book && k.Root?
    requires Flags(flags) && pa < PPN_LIMIT * PAGE_SIZE && Sole(r.book, l, Vpn(va, 2))
    requires MapPage(lay, r, l, r.book[l], va, pa, flags).Done?
    ensures var r' := MapPage(lay, r, l, r.book[l], va, pa, flags).value;
      && k in r'.book && r'.book[k] == r.book[k]
      && LeafPte(pa / PAGE_SIZE, flags, lay.attr) < WORD_LIMIT
      && Walk(r'.mem, r'.book[k], va') ==
         if va' / PAGE_SIZE == va / PAGE_SIZE && (k == l || Vpn(va, 2) == KERNEL_VPN2)
         then Leaf(0, LeafPte(pa / PAGE_SIZE, flags, lay.attr))
         else Walk(r.mem, r.book[k], va')
  {
    var r' := MapPage(lay, r, l, r.book[l], va, pa, flags).value;
    MapPageInstalls(lay, r, l, va, pa, flags);
    WalkIsBookWalk(lay, r, k, va');
    WalkIsBookWalk(lay, r', k, va');
    LeafReads(pa / PAGE_SIZE, flags, lay.attr);
    InstallUpdatesBookWalk(lay, r, r', LowLabel(l, va), Vpn(va, 0), LeafPte(pa / PAGE_SIZE, flags, lay.attr), k, va');
    SameSlot(l, va, k, va');
  }

  lemma InstallUpdatesBookWalk(lay: Layout, r: Ram, r': Ram, low: Label, i: nat, pte: Word, k: Label, va': nat)
    requires Installs(lay, r, r', low, i, pte) && k.Root?
    ensures BookWalk(lay, r', k, va') ==
      if Canonical(va') && LowLabel(k, va') == low && Vpn(va', 0) == i then ReadLeaf(pte)
      else BookWalk(lay, r, k, va')
  {
    hide Tree;
    var low' := LowLabel(k, va');
    if Canonical(va') && low' in r'.book {
      var w := r'.book[low'] * 512 + Vpn(va', 0);
      TreePlace(lay, r', low');
      TreePlace(lay, r', low);
      TreeSlot(lay, r', low, i, low', Vpn(va', 0));
      assert WordEffect(r, r', low, i, pte, w);
      if low' in r.book {
        LowWordsAreBelow(lay, r, low', Vpn(va', 0));
      }
    }
  }

  lemma LeafReads(f: nat, flags: nat, attr: nat)
    requires f < PPN_LIMIT && Flags(flags) && Attribute(attr)
    ensures LeafPte(f, flags, attr) < WORD_LIMIT
    ensures ReadLeaf(LeafPte(f, flags, attr)) == Leaf(0, LeafPte(f, flags, attr))
  {
    LeafFields(f, flags, attr);
  }

  /** Two lookups use the same entry of the same table exactly for the same page
      of the same space, or of the shared kernel gigabyte. */
  lemma SameSlot(l: Label, va: nat, k: Label, va': nat)
    requires l.Root? && k.Root? && va < 0x40_0000_0000
    ensures (Canonical(va') && LowLabel(k, va') == LowLabel(l, va) && Vpn(va', 0) == Vpn(va, 0)) <==>
            (va' / PAGE_SIZE == va / PAGE_SIZE && (k == l || Vpn(va, 2) == KERNEL_VPN2))
  {
    SamePage(va, va');
  }

  lemma LowWordsAreBelow(lay: Layout, r: Ram, l: Label, i: nat)
    requires Tree(lay, r) && l in r.book && !Upper(l) && i < 512
    ensures BelowUpper(r, r.book[l] * 512 + i) && r.book[l] * 512 + i < |r.mem|
  {
    assert PlaceOk(lay, r, l);
  }

  /** Addresses of the lower half lie in one page exactly when the three page
      numbers agree; an upper-half address agrees with none of them. */
  lemma SamePage(va: nat, va': nat)
    requires va < 0x40_0000_0000
    ensures Canonical(va') ==>
      (va / PAGE_SIZE == va' / PAGE_SIZE <==>
       Vpn(va, 2) == Vpn(va', 2) && Vpn(va, 1) == Vpn(va', 1) && Vpn(va, 0) == Vpn(va', 0))
    ensures va / PAGE_SIZE == va' / PAGE_SIZE ==> Canonical(va')
  {
    PageNumber(va);
    if va' < 0x40_0000_0000 {
      PageNumber(va');
      hide Vpn;
      ThreeDigits(Vpn(va, 2), Vpn(va, 1), Vpn(va, 0), Vpn(va', 2), Vpn(va', 1), Vpn(va', 0));
    } else if Canonical(va') {
      assert Vpn(va', 2) >= 256;
      assert Vpn(va, 2) < 256;
    }
  }

  lemma ThreeDigits(a2: nat, a1: nat, a0: nat, b2: nat, b1: nat, b0: nat)
    requires a1 < 512 && a0 < 512 && b1 < 512 && b0 < 512
    ensures a2 * 0x4_0000 + a1 * 512 + a0 == b2 * 0x4_0000 + b1 * 512 + b0 <==> a2 == b2 && a1 == b1 && a0 == b0
  {
  }

  lemma PageNumber(va: nat)
    requires va < 0x40_0000_0000
    ensures va / PAGE_SIZE == Vpn(va, 2) * 0x4_0000 + Vpn(va, 1) * 512 + Vpn(va, 0)
  {
    var p := va / PAGE_SIZE;
    assert va / 0x20_0000 == p / 512;
    assert va / 0x4000_0000 == p / 512 / 512;
  }
}
