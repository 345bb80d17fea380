/** The kernel's own discipline for its heap of page tables: kernel memory is
    mapped to itself once, in shared tables; every user page has a page of its
    own; and memory is an exact encoding of the book of pages handed out. */
module Heap {
  import opened Words
  import opened Sv39
  import opened Pte
  import opened PhysMemory
  import opened PageTables

  /** The shared last-level table that maps kernel page f, and its entry. */
  function KernelLow(f: nat): Label { Low(0, KERNEL_VPN2, f / 512 % 512) }

  /** Labels that ever occur: the template's kernel tables, and in every other
      space tables and pages of the user range only. */
  ghost predicate Known(lay: Layout, l: Label) {
    match l
    case Root(s) => true
    case Mid(s, i2) => if s == 0 then i2 == KERNEL_VPN2 else i2 == 0
    case Low(s, i2, i1) =>
      if s == 0 then i2 == KERNEL_VPN2 && BASE_F / 512 % 512 <= i1 <= (lay.endF - 1) / 512 % 512
      else i2 == 0 && UserVpn1(i1)
    case Page(s, i2, i1, i0) => s > 0 && i2 == 0 && UserVpn1(i1) && i0 < 512
  }

  /** USER_BASE to USER_LIMIT is four last-level tables. */
  predicate UserVpn1(i1: nat) { 8 <= i1 < 12 }

  /** What entry i of a last-level table holds, with kernel pages below `hi` mapped. */
  ghost function LeafEntry(lay: Layout, book: map<Label, nat>, hi: nat, l: Label, i: nat): nat
    requires l.Low?
  {
    if l.s == 0 then
      var f := l.i2 * 0x4_0000 + l.i1 * 512 + i;
      if BASE_F <= f < hi then LeafPte(f, KERNEL_RWX, lay.attr) else 0
    else if Child(l, i) in book then LeafPte(book[Child(l, i)], USER_RWX, lay.attr)
    else 0
  }

  ghost predicate LeafOk(lay: Layout, r: Ram, hi: nat, l: Label, i: nat) {
    && l in r.book && l.Low? && r.book[l] * 512 + i < |r.mem|
    && r.mem[r.book[l] * 512 + i] == LeafEntry(lay, r.book, hi, l, i)
  }

  ghost predicate HeapUpTo(lay: Layout, r: Ram, hi: nat) {
    && Tree(lay, r)
    && hi <= lay.endF
    && Root(0) in r.book
    && (forall l :: l in r.book ==> Known(lay, l))
    && (forall l, i :: l in r.book && l.Low? && 0 <= i < 512 ==> LeafOk(lay, r, hi, l, i))
    && (forall f :: BASE_F <= f < hi ==> KernelLow(f) in r.book)
  }

  /** The heap once the template is complete. */
  ghost predicate HeapOk(lay: Layout, r: Ram) {
    HeapUpTo(lay, r, lay.endF)
  }

  /** Every page handed out is in the book. */
  ghost predicate Counted(lay: Layout, r: Ram) {
    |r.book| == r.next - lay.freeF
  }

  // The clauses of HeapOk, one at a time.

  lemma HeapIsTree(lay: Layout, r: Ram)
    requires HeapOk(lay, r)
    ensures Tree(lay, r) && Sized(lay, r) && lay.Ok() && Root(0) in r.book
  {
  }

  lemma HeapLabel(lay: Layout, r: Ram, l: Label)
    requires HeapOk(lay, r) && l in r.book
    ensures Known(lay, l)
  {
  }

  lemma HeapLeaf(lay: Layout, r: Ram, l: Label, i: nat)
    requires HeapOk(lay, r) && l in r.book && l.Low? && i < 512
    ensures LeafOk(lay, r, lay.endF, l, i)
  {
  }

  // ---- what the hardware sees of such a heap ----

  predicate InUserRange(va: nat) { USER_BASE <= va < USER_LIMIT }

  predicate InKernelRange(lay: Layout, a: nat) {
    BASE_F * PAGE_SIZE <= a < lay.endF * PAGE_SIZE
  }

  lemma UserVpns(va: nat)
    ensures InUserRange(va) <==> va < 0x40_0000_0000 && Vpn(va, 2) == 0 && UserVpn1(Vpn(va, 1))
  {
    if va < 0x40_0000_0000 { PageNumber(va); }
  }

  lemma KernelVpns(lay: Layout, a: nat)
    requires lay.Ok()
    ensures a < 0x40_0000_0000 && Vpn(a, 2) == KERNEL_VPN2 ==>
      0x8_0000 <= a / PAGE_SIZE < 0xC_0000
      && a / PAGE_SIZE == KERNEL_VPN2 * 0x4_0000 + Vpn(a, 1) * 512 + Vpn(a, 0)
      && KernelLow(a / PAGE_SIZE) == Low(0, KERNEL_VPN2, Vpn(a, 1))
    ensures InKernelRange(lay, a) ==> a < 0x40_0000_0000 && Vpn(a, 2) == KERNEL_VPN2
  {
    if a < 0x40_0000_0000 { PageNumber(a); }
  }

  /** The complete hardware view of one space: the user pages of its book, the
      kernel range mapped to itself, and nothing else. */
  ghost function SpaceLeaf(lay: Layout, r: Ram, s: nat, va: nat): Leaf
    requires HeapOk(lay, r)
  {
    if InUserRange(va) && s > 0 && UserLabel(s, va) in r.book then
      assert PlaceOk(lay, r, UserLabel(s, va));
      LeafFields(r.book[UserLabel(s, va)], USER_RWX, lay.attr);
      Leaf(0, LeafPte(r.book[UserLabel(s, va)], USER_RWX, lay.attr))
    else if InKernelRange(lay, va) then
      LeafFields(va / PAGE_SIZE, KERNEL_RWX, lay.attr);
      Leaf(0, LeafPte(va / PAGE_SIZE, KERNEL_RWX, lay.attr))
    else NoLeaf
  }

  lemma WalkIsSpaceLeaf(lay: Layout, r: Ram, s: nat, va: nat)
    requires HeapOk(lay, r) && Root(s) in r.book
    ensures Walk(r.mem, r.book[Root(s)], va) == SpaceLeaf(lay, r, s, va)
  {
    WalkIsBookWalk(lay, r, Root(s), va);
    if Canonical(va) && LowLabel(Root(s), va) in r.book {
      LowIsInLowerHalf(lay, s, va);
      if Vpn(va, 2) == KERNEL_VPN2 {
        KernelBookWalk(lay, r, s, va);
      } else {
        UserBookWalk(lay, r, s, va);
      }
    } else {
      NoLowNoLeaf(lay, r, s, va);
    }
  }

  lemma LowIsInLowerHalf(lay: Layout, s: nat, va: nat)
    requires Canonical(va) && Known(lay, LowLabel(Root(s), va))
    ensures va < 0x40_0000_0000
    ensures Vpn(va, 2) == KERNEL_VPN2 || (s > 0 && Vpn(va, 2) == 0 && UserVpn1(Vpn(va, 1)))
  {
    UpperHalfVpn(va);
  }

  lemma UpperHalfVpn(va: nat)
    requires Canonical(va)
    ensures va < 0x40_0000_0000 || Vpn(va, 2) >= 256
  {
  }

  lemma KernelBookWalk(lay: Layout, r: Ram, s: nat, va: nat)
    requires HeapOk(lay, r) && va < 0x40_0000_0000 && Vpn(va, 2) == KERNEL_VPN2 && LowLabel(Root(s), va) in r.book
    ensures BookWalk(lay, r, Root(s), va) == SpaceLeaf(lay, r, s, va)
  {
    UserVpns(va);
    KernelVpns(lay, va);
    KernelLeafRead(lay, va);
    assert LeafOk(lay, r, lay.endF, LowLabel(Root(s), va), Vpn(va, 0));
  }

  lemma UserBookWalk(lay: Layout, r: Ram, s: nat, va: nat)
    requires HeapOk(lay, r) && s > 0 && va < 0x40_0000_0000 && Vpn(va, 2) == 0 && UserVpn1(Vpn(va, 1))
    requires LowLabel(Root(s), va) in r.book
    ensures BookWalk(lay, r, Root(s), va) == SpaceLeaf(lay, r, s, va)
  {
    UserVpns(va);
    KernelVpns(lay, va);
    assert LeafOk(lay, r, lay.endF, LowLabel(Root(s), va), Vpn(va, 0));
    if UserLabel(s, va) in r.book {
      UserLeafRead(lay, r, s, va);
    }
  }

  lemma KernelLeafRead(lay: Layout, va: nat)
    requires lay.Ok() && va < 0x40_0000_0000
    ensures InKernelRange(lay, va) ==>
      LeafPte(va / PAGE_SIZE, KERNEL_RWX, lay.attr) < WORD_LIMIT
      && ReadLeaf(LeafPte(va / PAGE_SIZE, KERNEL_RWX, lay.attr)) == Leaf(0, LeafPte(va / PAGE_SIZE, KERNEL_RWX, lay.attr))
  {
    if InKernelRange(lay, va) {
      LeafReads(va / PAGE_SIZE, KERNEL_RWX, lay.attr);
    }
  }

  lemma UserLeafRead(lay: Layout, r: Ram, s: nat, va: nat)
    requires HeapOk(lay, r) && UserLabel(s, va) in r.book
    ensures r.book[UserLabel(s, va)] < PPN_LIMIT
    ensures LeafPte(r.book[UserLabel(s, va)], USER_RWX, lay.attr) < WORD_LIMIT
    ensures ReadLeaf(LeafPte(r.book[UserLabel(s, va)], USER_RWX, lay.attr))
         == Leaf(0, LeafPte(r.book[UserLabel(s, va)], USER_RWX, lay.attr))
  {
    assert PlaceOk(lay, r, UserLabel(s, va));
    LeafReads(r.book[UserLabel(s, va)], USER_RWX, lay.attr);
  }

  lemma NoLowNoLeaf(lay: Layout, r: Ram, s: nat, va: nat)
    requires HeapOk(lay, r)
    requires Canonical(va) ==> LowLabel(Root(s), va) !in r.book
    ensures SpaceLeaf(lay, r, s, va) == NoLeaf
  {
    UserVpns(va);
    KernelVpns(lay, va);
    assert UserLabel(s, va) in r.book ==> Parent(UserLabel(s, va)) in r.book;
  }
}
