/** The memory budget: pages are handed out for distinct labels only, and the
    labels that can occur are few, so with enough free pages the allocator never
    panics. */
module Budget {
  import opened Words
  import opened Sv39
  import opened Pte
  import opened PhysMemory
  import opened PageTables
  import opened Heap
  import opened UserPages

  const FIRST_LOW: nat := BASE_F / 512 % 512

  function LastLow(lay: Layout): nat
    requires lay.endF > 0
  {
    (lay.endF - 1) / 512 % 512
  }

  /** Tables of the kernel template: root, middle, and one per 2 MB. */
  function KernelTables(lay: Layout): nat
    requires lay.Ok()
  {
    KernelLowCount(lay);
    2 + (LastLow(lay) - FIRST_LOW + 1)
  }

  lemma KernelLowCount(lay: Layout)
    requires lay.Ok()
    ensures FIRST_LOW <= LastLow(lay)
  {
  }

  /** Root, middle, four last-level tables and 2048 pages. */
  const PAGES_PER_USER: nat := 2054

  /** The template, the idle process's root, and n user processes. */
  function Limit(lay: Layout, n: nat): nat
    requires lay.Ok()
  {
    KernelTables(lay) + 1 + n * PAGES_PER_USER
  }

  /** The idle process is space 1 and owns its root only; users are spaces 2 to n + 1. */
  predicate InUse(l: Label, n: nat) {
    l.s == 0 || l == Root(1) || 2 <= l.s < 2 + n
  }

  ghost predicate AllInUse(book: map<Label, nat>, n: nat) {
    forall l :: l in book ==> InUse(l, n)
  }

  lemma GiveInUse(lay: Layout, r: Ram, r2: Ram, r3: Ram, r': Ram, s: nat, va: Word, bytes: seq<Byte>, n: nat)
    requires Given(lay, r, r2, r3, r', s, va, bytes) && AllInUse(r.book, n) && 2 <= s < 2 + n && Vpn(va, 2) != KERNEL_VPN2
    ensures AllInUse(r'.book, n)
  {
    hide Tree, WordEffect;
  }

  /** A number for each label that can occur. */
  function Rank(lay: Layout, l: Label): int
    requires lay.Ok()
  {
    var k := KernelTables(lay);
    if l.s == 0 then (match l case Root(_) => 0 case Mid(_, _) => 1 case Low(_, _, i1) => 2 + i1 - FIRST_LOW case Page(_, _, _, _) => 0)
    else if l.s == 1 then k
    else k + 1 + (l.s - 2) * PAGES_PER_USER + UserRank(l)
  }

  function UserRank(l: Label): int {
    match l
    case Root(_) => 0
    case Mid(_, _) => 1
    case Low(_, _, i1) => 2 + (i1 - 8)
    case Page(_, _, i1, i0) => 6 + (i1 - 8) * 512 + i0
  }

  lemma UserRankRange(lay: Layout, l: Label)
    requires Known(lay, l) && l.s > 0
    ensures 0 <= UserRank(l) < PAGES_PER_USER
  {
  }

  lemma UserRankDistinct(lay: Layout, l: Label, k: Label)
    requires Known(lay, l) && Known(lay, k) && l.s > 0 && k.s > 0 && l.s == k.s
    requires UserRank(l) == UserRank(k)
    ensures l == k
  {
  }

  lemma RankRange(lay: Layout, l: Label, n: nat)
    requires lay.Ok() && Known(lay, l) && InUse(l, n)
    ensures 0 <= Rank(lay, l) < Limit(lay, n)
  {
    if l.s > 0 { UserRankRange(lay, l); }
  }

  lemma RankDistinct(lay: Layout, l: Label, k: Label, n: nat)
    requires lay.Ok() && Known(lay, l) && Known(lay, k) && InUse(l, n) && InUse(k, n)
    requires Rank(lay, l) == Rank(lay, k)
    ensures l == k
  {
    if l.s > 0 { UserRankRange(lay, l); }
    if k.s > 0 { UserRankRange(lay, k); }
    if l.s >= 2 && k.s >= 2 {
      assert l.s == k.s;
      UserRankDistinct(lay, l, k);
    }
  }

  /** A set whose elements have distinct numbers below `bound` has at most that many. */
  lemma {:induction false} Pigeonhole(lay: Layout, labels: set<Label>, bound: nat)
    requires lay.Ok()
    requires forall l :: l in labels ==> 0 <= Rank(lay, l) < bound
    requires forall l, k :: l in labels && k in labels && Rank(lay, l) == Rank(lay, k) ==> l == k
    ensures |labels| <= bound
  {
    if bound == 0 {
      assert labels == {};
    } else if l :| l in labels && Rank(lay, l) == bound - 1 {
      Pigeonhole(lay, labels - {l}, bound - 1);
    } else {
      Pigeonhole(lay, labels, bound - 1);
    }
  }

  /** Labels of the book together with further ones: never more than the limit. */
  lemma RoomFor(lay: Layout, r: Ram, n: nat, more: set<Label>)
    requires lay.Ok() && (forall l :: l in r.book ==> Known(lay, l)) && AllInUse(r.book, n)
    requires forall l :: l in more ==> Known(lay, l) && InUse(l, n) && l !in r.book
    ensures |r.book| + |more| <= Limit(lay, n)
  {
    hide Rank, LeafOk;
    var labels := r.book.Keys + more;
    forall l | l in labels ensures 0 <= Rank(lay, l) < Limit(lay, n) { RankRange(lay, l, n); }
    forall l, k | l in labels && k in labels && Rank(lay, l) == Rank(lay, k) ensures l == k {
      RankDistinct(lay, l, k, n);
    }
    Pigeonhole(lay, labels, Limit(lay, n));
    assert |labels| == |r.book.Keys| + |more|;
  }

  lemma HeapRoomFor(lay: Layout, r: Ram, n: nat, more: set<Label>)
    requires HeapOk(lay, r) && AllInUse(r.book, n)
    requires forall l :: l in more ==> Known(lay, l) && InUse(l, n) && l !in r.book
    ensures |r.book| + |more| <= Limit(lay, n)
  {
    hide Tree, LeafOk;
    HeapIsTree(lay, r);
    RoomFor(lay, r, n, more);
  }

  /** However long the kernel runs: the pages handed out stay within the limit. */
  lemma PagesWithinLimit(lay: Layout, r: Ram, n: nat)
    requires HeapOk(lay, r) && Counted(lay, r) && AllInUse(r.book, n)
    ensures r.next - lay.freeF <= Limit(lay, n)
  {
    HeapRoomFor(lay, r, n, {});
  }

  /** On the qemu-virt layout: 34 kernel tables; 4143 pages with the two
      processes that are booted, 14413 with all seven user slots. */
  lemma QemuVirtLimits(lay: Layout)
    requires lay.Ok() && lay.endF == 0x84200
    ensures KernelTables(lay) == 34 && Limit(lay, 2) == 4143 && Limit(lay, 7) == 14413
  {
  }

  // ---- what an operation costs, exactly ----

  function TableCost(book: map<Label, nat>, l: Label): nat { if l in book then 0 else 1 }

  /** Tables missing on the path of va. */
  function PathCost(book: map<Label, nat>, l: Label, va: nat): nat
    requires l.Root?
  {
    TableCost(book, Child(l, Vpn(va, 2))) + TableCost(book, LowLabel(l, va))
  }

  lemma DescendExact(lay: Layout, r: Ram, l: Label, i: nat)
    requires Tree(lay, r) && l in r.book && Upper(l) && i < 512 && Sole(r.book, l, i)
    ensures Descend(lay, r, l, r.book[l], i).Done? <==> r.next + TableCost(r.book, Child(l, i)) <= lay.endF
    ensures var d := Descend(lay, r, l, r.book[l], i);
      d.Done? ==> d.value.0.next == r.next + TableCost(r.book, Child(l, i))
  {
    PresentIffInBook(lay, r, l, i);
  }

  /** map_page panics exactly if an address is unaligned, va is beyond the lower half,
      or a page is wanting for the tables it lacks; it takes pages for those only. */
  lemma MapPageExact(lay: Layout, r: Ram, l: Label, va: Word, pa: Word, flags: nat)
    requires Tree(lay, r) && l in r.book && l.Root? && Sole(r.book, l, Vpn(va, 2))
    requires Flags(flags) && pa < PPN_LIMIT * PAGE_SIZE
    ensures MapPage(lay, r, l, r.book[l], va, pa, flags).Done? <==>
      va % PAGE_SIZE == 0 && pa % PAGE_SIZE == 0 && va < 0x40_0000_0000 && r.next + PathCost(r.book, l, va) <= lay.endF
    ensures var res := MapPage(lay, r, l, r.book[l], va, pa, flags);
      res.Done? ==> res.value.next == r.next + PathCost(r.book, l, va)
  {
    hide Descend, LeafExpr, PtIndex, BeyondLowerHalf, IsAligned, LeafPte, Vpn;
    DescendExact(lay, r, l, Vpn(va, 2));
    var first := Descend(lay, r, l, r.book[l], Vpn(va, 2));
    if first.Done? {
      DescendExact(lay, first.value.0, Child(l, Vpn(va, 2)), Vpn(va, 1));
    }
  }

  /** Giving a user page takes that page and the tables that are missing on its path. */
  lemma GiveExact(lay: Layout, r: Ram, s: nat, va: Word, bytes: seq<Byte>)
    requires Tree(lay, r) && Root(s) in r.book && |bytes| <= PAGE_SIZE && Vpn(va, 2) != KERNEL_VPN2
    requires va % PAGE_SIZE == 0 && va < 0x40_0000_0000
    ensures GivePage(lay, r, s, r.book[Root(s)], va, bytes).Done? <==> r.next + 1 + PathCost(r.book, Root(s), va) <= lay.endF
    ensures var res := GivePage(lay, r, s, r.book[Root(s)], va, bytes);
      res.Done? ==> res.value.next == r.next + 1 + PathCost(r.book, Root(s), va)
  {
    TreeIsSized(lay, r);
    hide FillFresh, Tree, MapPage, Vpn;
    if r.next < lay.endF {
      var r2 := FillFresh(lay, r, AllocPage(lay, r).value.0, r.next, bytes);
      MapUserExact(lay, r2, s, va, r.next);
    }
  }

  lemma MapUserExact(lay: Layout, r: Ram, s: nat, va: Word, f: nat)
    requires Tree(lay, r) && Root(s) in r.book && f < PPN_LIMIT && Vpn(va, 2) != KERNEL_VPN2
    requires va % PAGE_SIZE == 0 && va < 0x40_0000_0000
    ensures MapUser(lay, r, s, r.book[Root(s)], va, f).Done? <==> r.next + PathCost(r.book, Root(s), va) <= lay.endF
    ensures var res := MapUser(lay, r, s, r.book[Root(s)], va, f);
      res.Done? ==> res.value.next == r.next + PathCost(r.book, Root(s), va)
  {
    hide MapPage, Tree;
    MapPageExact(lay, r, Root(s), va, f * PAGE_SIZE, USER_RWX);
  }

  /** With pages for the limit, a page fault on an empty user page is always served. */
  lemma GiveSucceeds(lay: Layout, r: Ram, s: nat, va: Word, bytes: seq<Byte>, n: nat)
    requires HeapOk(lay, r) && Counted(lay, r) && AllInUse(r.book, n) && lay.endF - lay.freeF >= Limit(lay, n)
    requires 2 <= s < 2 + n && Root(s) in r.book && InUserRange(va) && va % PAGE_SIZE == 0
    requires UserLabel(s, va) !in r.book && |bytes| <= PAGE_SIZE && Vpn(va, 2) != KERNEL_VPN2
    ensures GivePage(lay, r, s, r.book[Root(s)], va, bytes).Done?
  {
    hide Rank, HeapOk, GivePage;
    UserVpns(va);
    HeapIsTree(lay, r);
    var mid, low := Child(Root(s), Vpn(va, 2)), LowLabel(Root(s), va);
    var tables := Missing(r.book, mid, low);
    HeapRoomFor(lay, r, n, tables + {UserLabel(s, va)});
    assert |tables + {UserLabel(s, va)}| == |tables| + 1;
    MissingTables(r.book, mid, low);
    GiveExact(lay, r, s, va, bytes);
  }

  function Missing(book: map<Label, nat>, mid: Label, low: Label): set<Label> {
    (if mid in book then {} else {mid}) + (if low in book then {} else {low})
  }

  lemma MissingTables(book: map<Label, nat>, mid: Label, low: Label)
    requires mid != low
    ensures |Missing(book, mid, low)| == TableCost(book, mid) + TableCost(book, low)
  {
  }
}
