/** Building address spaces: the kernel template of create_page_table, the copy
    of its root page, and the image load loop of create_process2. */
module AddressSpaces {
  import opened Words
  import opened Sv39
  import opened Pte
  import opened PhysMemory
  import opened PageTables
  import opened Heap
  import opened UserPages
  import opened FlatView

  // ---- the template ----

  /** The template under construction: kernel pages below f are mapped, and no
      other space exists yet. */
  ghost predicate Building(lay: Layout, r: Ram, f: nat) {
    && HeapUpTo(lay, r, f) && BASE_F <= f
    && Counted(lay, r)
    && (forall l :: l in r.book && l.Root? ==> l == Root(0))
  }

  /** The template under construction, with its root page. */
  ghost predicate UpTo(lay: Layout, r: Ram, root: nat, f: nat) {
    f <= lay.endF && Root(0) in r.book && root == r.book[Root(0)] && Building(lay, r, f)
  }

  /** The loop of create_page_table over the kernel range. */
  function MapKernel(lay: Layout, r: Ram, root: nat, f: nat): Result<Ram>
    requires UpTo(lay, r, root, f) && f <= lay.endF
    decreases lay.endF - f
  {
    if f == lay.endF then Done(r)
    else
      hide UpTo, MapKernelPage;
      var r1 :- MapKernelPage(lay, r, root, f);
      MapKernel(lay, r1, root, f + 1)
  }

  lemma {:induction false} MapKernelCompletes(lay: Layout, r: Ram, root: nat, f: nat)
    requires UpTo(lay, r, root, f) && f <= lay.endF
    ensures var res := MapKernel(lay, r, root, f); res.Done? ==> UpTo(lay, res.value, root, lay.endF)
    decreases lay.endF - f
  {
    hide UpTo, MapKernelPage;
    if f < lay.endF {
      var step := MapKernelPage(lay, r, root, f);
      if step.Done? { MapKernelCompletes(lay, step.value, root, f + 1); }
    }
  }

  /** Map kernel page f to itself. */
  function MapKernelPage(lay: Layout, r: Ram, root: nat, f: nat): (res: Result<Ram>)
    requires UpTo(lay, r, root, f) && f < lay.endF
    ensures res.Done? ==> UpTo(lay, res.value, root, f + 1)
  {
    KernelPageReady(lay, r, f);
    hide Building, MapPage;
    MapKernelStep(lay, r, f);
    MapPage(lay, r, Root(0), root, f * PAGE_SIZE, f * PAGE_SIZE, KERNEL_RWX)
  }

  lemma KernelPageReady(lay: Layout, r: Ram, f: nat)
    requires Building(lay, r, f) && f < lay.endF
    ensures Tree(lay, r) && Root(0) in r.book && lay.Ok() && f * PAGE_SIZE < WORD_LIMIT
    ensures f * PAGE_SIZE < PPN_LIMIT * PAGE_SIZE && Flags(KERNEL_RWX)
    ensures Sole(r.book, Root(0), Vpn(f * PAGE_SIZE, 2))
  {
  }

  lemma MapKernelStep(lay: Layout, r: Ram, f: nat)
    requires Building(lay, r, f) && f < lay.endF
    requires Tree(lay, r) && Root(0) in r.book && lay.Ok() && f * PAGE_SIZE < WORD_LIMIT
    requires f * PAGE_SIZE < PPN_LIMIT * PAGE_SIZE && Flags(KERNEL_RWX)
    requires Sole(r.book, Root(0), Vpn(f * PAGE_SIZE, 2))
    ensures var res := MapPage(lay, r, Root(0), r.book[Root(0)], f * PAGE_SIZE, f * PAGE_SIZE, KERNEL_RWX);
      res.Done? ==> Root(0) in res.value.book && res.value.book[Root(0)] == r.book[Root(0)] && Building(lay, res.value, f + 1)
  {
    hide MapPage, Installs;
    var res := MapPage(lay, r, Root(0), r.book[Root(0)], f * PAGE_SIZE, f * PAGE_SIZE, KERNEL_RWX);
    if res.Done? {
      MapPageInstalls(lay, r, Root(0), f * PAGE_SIZE, f * PAGE_SIZE, KERNEL_RWX);
      MapPageBook(lay, r, Root(0), f * PAGE_SIZE, f * PAGE_SIZE, KERNEL_RWX);
      KernelPageVpns(lay, f);
      InstallKernelPage(lay, r, res.value, f);
    }
  }

  lemma InstallKernelPage(lay: Layout, r: Ram, r': Ram, f: nat)
    requires Building(lay, r, f) && f < lay.endF && LeafPte(f, KERNEL_RWX, lay.attr) < WORD_LIMIT
    requires Installs(lay, r, r', KernelLow(f), f % 512, LeafPte(f, KERNEL_RWX, lay.attr))
    requires r'.next - |r'.book| == r.next - |r.book|
    ensures Building(lay, r', f + 1)
  {
    hide WordEffect, LeafEntry, Tree;
    TreeIsSized(lay, r);
    KernelPageVpns(lay, f);
    forall l | l in r'.book ensures Known(lay, l) { }
    var hi := f + 1;
    forall l, i | l in r'.book && l.Low? && 0 <= i < 512 ensures LeafOk(lay, r', hi, l, i) {
      KernelLeafStep(lay, r, r', f, l, i);
    }
    forall g | BASE_F <= g < f + 1 ensures KernelLow(g) in r'.book {
      if g < f { assert KernelLow(g) in r.book; }
    }
  }

  lemma KernelPageVpns(lay: Layout, f: nat)
    requires lay.Ok() && BASE_F <= f < lay.endF
    ensures Vpn(f * PAGE_SIZE, 2) == KERNEL_VPN2 && Vpn(f * PAGE_SIZE, 1) == f / 512 % 512
    ensures Vpn(f * PAGE_SIZE, 0) == f % 512
    ensures f == KERNEL_VPN2 * 0x4_0000 + f / 512 % 512 * 512 + f % 512
    ensures Known(lay, KernelLow(f))
  {
    PageNumber(f * PAGE_SIZE);
    KernelVpns(lay, f * PAGE_SIZE);
  }

  lemma KernelLeafStep(lay: Layout, r: Ram, r': Ram, f: nat, l: Label, i: nat)
    requires Building(lay, r, f) && f < lay.endF
    requires LeafPte(f, KERNEL_RWX, lay.attr) < WORD_LIMIT
    requires Installs(lay, r, r', KernelLow(f), f % 512, LeafPte(f, KERNEL_RWX, lay.attr))
    requires l in r'.book && l.Low? && i < 512 && Known(lay, l)
    ensures LeafOk(lay, r', f + 1, l, i)
  {
    hide Tree, LeafEntry;
    TreePlace(lay, r', l);
    TreeIsSized(lay, r);
    KernelPageVpns(lay, f);
    var w := r'.book[l] * 512 + i;
    TreePlace(lay, r', KernelLow(f));
    TreeSlot(lay, r', l, i, KernelLow(f), f % 512);
    assert WordEffect(r, r', KernelLow(f), f % 512, LeafPte(f, KERNEL_RWX, lay.attr), w);
    KernelLeafEntry(lay, r, r', f, l, i);
    if l in r.book {
      LowWordsAreBelow(lay, r, l, i);
      assert LeafOk(lay, r, f, l, i);
    }
  }

  /** How the entries called for change when kernel page f is added. */
  lemma KernelLeafEntry(lay: Layout, r: Ram, r': Ram, f: nat, l: Label, i: nat)
    requires Building(lay, r, f) && f < lay.endF
    requires l in r'.book && l.Low? && i < 512 && Known(lay, l)
    requires forall x :: x in r.book ==> x in r'.book && r'.book[x] == r.book[x]
    requires forall x :: x in r'.book ==> x in r.book || x == KernelLow(f) || x == Parent(KernelLow(f))
    ensures LeafEntry(lay, r'.book, f + 1, l, i) ==
      if l == KernelLow(f) && i == f % 512 then LeafPte(f, KERNEL_RWX, lay.attr)
      else if l in r.book then LeafEntry(lay, r.book, f, l, i) else 0
  {
    hide Tree, LeafPte;
    TreeIsSized(lay, r);
    KernelPageVpns(lay, f);
    if l !in r.book && i != f % 512 {
      NewKernelTable(lay, r, f, i);
    }
  }

  /** A kernel table that is still missing maps no earlier page. */
  lemma NewKernelTable(lay: Layout, r: Ram, f: nat, i: nat)
    requires Building(lay, r, f) && f < lay.endF && KernelLow(f) !in r.book && i < 512 && i != f % 512
    ensures var g := KERNEL_VPN2 * 0x4_0000 + f / 512 % 512 * 512 + i;
      !(BASE_F <= g < f + 1)
  {
    hide Tree;
    TreeIsSized(lay, r);
    var g := KERNEL_VPN2 * 0x4_0000 + f / 512 % 512 * 512 + i;
    KernelPageVpns(lay, f);
    assert g / 512 == KERNEL_VPN2 * 512 + f / 512 % 512;
    assert KernelLow(g) == KernelLow(f);
  }

  /** Nothing handed out yet: the static next_paddr at __free_ram. */
  ghost predicate Fresh(lay: Layout, r: Ram) {
    Sized(lay, r) && r.next == lay.freeF && r.book == map[]
  }

  /** The first half of create_page_table: the template, built once. */
  function NewTemplate(lay: Layout, r: Ram): (res: Result<(Ram, nat)>)
    requires Fresh(lay, r)
  {
    hide UpTo, MapKernel;
    var (r1, f) :- AllocPage(lay, r);
    var r2 := NameRoot(lay, r, r1, f);
    var r3 :- MapKernel(lay, r2, f, BASE_F);
    Done((r3, f))
  }

  function NameRoot(lay: Layout, r: Ram, r1: Ram, f: nat): (r2: Ram)
    requires Fresh(lay, r) && r.next < lay.endF && (r1, f) == AllocPage(lay, r).value
    ensures UpTo(lay, r2, f, BASE_F)
  {
    FirstRoot(lay, r);
    hide UpTo;
    r1.(book := r1.book[Root(0) := f])
  }

  lemma FirstRoot(lay: Layout, r: Ram)
    requires Fresh(lay, r) && r.next < lay.endF
    ensures UpTo(lay, Ram(ZeroPages(r.mem, r.next, 1), r.next + 1, r.book[Root(0) := r.next]), r.next, BASE_F)
  {
    var r2 := Ram(ZeroPages(r.mem, r.next, 1), r.next + 1, r.book[Root(0) := r.next]);
    assert r2.book == map[Root(0) := r.next];
    forall l, i | l in r2.book && Upper(l) && 0 <= i < 512 ensures EntryOk(r2, l, i) { }
    assert PlaceOk(lay, r2, Root(0));
  }

  /** The template maps all of kernel memory, and nothing else is in the book. */
  lemma TemplateIsHeap(lay: Layout, r: Ram)
    requires Fresh(lay, r) && NewTemplate(lay, r).Done?
    ensures var (r', root) := NewTemplate(lay, r).value;
      && HeapOk(lay, r') && Counted(lay, r') && r'.book[Root(0)] == root
      && (forall l :: l in r'.book && l.Root? ==> l == Root(0))
  {
    TemplateIsComplete(lay, r);
    hide NewTemplate, HeapUpTo;
  }

  lemma TemplateIsComplete(lay: Layout, r: Ram)
    requires Fresh(lay, r) && NewTemplate(lay, r).Done?
    ensures UpTo(lay, NewTemplate(lay, r).value.0, NewTemplate(lay, r).value.1, lay.endF)
  {
    hide MapKernel, NameRoot, AllocPage, UpTo;
    var (r1, f) := AllocPage(lay, r).value;
    MapKernelCompletes(lay, NameRoot(lay, r, r1, f), f, BASE_F);
  }

  // ---- a space of its own for each process ----

  /** The second half of create_page_table: one page, copied from the template. */
  function NewRoot(lay: Layout, r: Ram, s: nat, template: nat): (res: Result<(Ram, nat)>)
    requires Sized(lay, r) && (template + 1) * 512 <= |r.mem|
  {
    var (r1, f) :- AllocPage(lay, r);
    Done((Ram(CopyPage(r1.mem, f, template), r1.next, r1.book[Root(s) := f]), f))
  }

  /** create_page_table: the template, if it does not exist yet, and a copy. */
  function TableFor(lay: Layout, r: Ram, template: nat, s: nat): Result<(Ram, nat, nat)>
    requires if template == 0 then Fresh(lay, r) else HeapOk(lay, r) && r.book[Root(0)] == template
  {
    hide NewTemplate, Fresh;
    if template == 0 then
      var (r1, t) :- NewTemplate(lay, r);
      TemplateIsHeap(lay, r);
      CopyFor(lay, r1, t, s)
    else CopyFor(lay, r, template, s)
  }

  function CopyFor(lay: Layout, r: Ram, template: nat, s: nat): Result<(Ram, nat, nat)>
    requires HeapOk(lay, r) && r.book[Root(0)] == template
  {
    TreePlace(lay, r, Root(0));
    var (r1, root) :- NewRoot(lay, r, s, template);
    Done((r1, template, root))
  }

  /** A copied root starts an empty user space that shares the kernel tables. */
  lemma NewRootKeepsHeap(lay: Layout, r: Ram, s: nat)
    requires HeapOk(lay, r) && s > 0 && Root(s) !in r.book
    requires (r.book[Root(0)] + 1) * 512 <= |r.mem| && NewRoot(lay, r, s, r.book[Root(0)]).Done?
    ensures var (r', root) := NewRoot(lay, r, s, r.book[Root(0)]).value;
      && HeapOk(lay, r') && r'.book == r.book[Root(s) := root] && root == r.next && r'.next == r.next + 1
      && (forall w :: 0 <= w < r.next * 512 ==> r'.mem[w] == r.mem[w])
  {
    var (r', root) := NewRoot(lay, r, s, r.book[Root(0)]).value;
    NewRootKeepsTree(lay, r, s);
    hide Tree, CopyPage, LeafEntry;
    forall l, i | l in r'.book && l.Low? && 0 <= i < 512 ensures LeafOk(lay, r', lay.endF, l, i) {
      assert LeafOk(lay, r, lay.endF, l, i);
      TreePlace(lay, r, l);
      SameEntryCalled(lay, r, r', s, l, i);
    }
    forall f | BASE_F <= f < lay.endF ensures KernelLow(f) in r'.book {
      assert KernelLow(f) in r.book;
    }
  }

  lemma SameEntryCalled(lay: Layout, r: Ram, r': Ram, s: nat, l: Label, i: nat)
    requires l.Low? && r'.book == r.book[Root(s) := r.next]
    ensures LeafEntry(lay, r'.book, lay.endF, l, i) == LeafEntry(lay, r.book, lay.endF, l, i)
  {
  }

  lemma NewRootKeepsTree(lay: Layout, r: Ram, s: nat)
    requires HeapOk(lay, r) && s > 0 && Root(s) !in r.book
    requires (r.book[Root(0)] + 1) * 512 <= |r.mem| && NewRoot(lay, r, s, r.book[Root(0)]).Done?
    ensures Tree(lay, NewRoot(lay, r, s, r.book[Root(0)]).value.0)
    ensures forall w :: 0 <= w < r.next * 512 ==> NewRoot(lay, r, s, r.book[Root(0)]).value.0.mem[w] == r.mem[w]
  {
    hide LeafEntry, LeafOk, KernelLow;
    var (r', root) := NewRoot(lay, r, s, r.book[Root(0)]).value;
    forall k | k in r'.book ensures PlaceOk(lay, r', k) {
      assert k != Root(s) ==> PlaceOk(lay, r, k);
    }
    forall k | k in r'.book ensures Parent(k) in r'.book {
      assert k != Root(s) ==> Parent(k) in r.book;
    }
    forall k, j | k in r'.book && j in r'.book && r'.book[k] == r'.book[j] ensures k == j {
      assert k in r.book ==> PlaceOk(lay, r, k);
      assert j in r.book ==> PlaceOk(lay, r, j);
    }
    forall k, j | k in r'.book && Upper(k) && 0 <= j < 512 ensures EntryOk(r', k, j) {
      NewRootEntry(lay, r, s, k, j);
    }
  }

  lemma NewRootEntry(lay: Layout, r: Ram, s: nat, k: Label, j: nat)
    requires HeapOk(lay, r) && s > 0 && Root(s) !in r.book
    requires (r.book[Root(0)] + 1) * 512 <= |r.mem| && NewRoot(lay, r, s, r.book[Root(0)]).Done?
    requires k in NewRoot(lay, r, s, r.book[Root(0)]).value.0.book && Upper(k) && j < 512
    ensures EntryOk(NewRoot(lay, r, s, r.book[Root(0)]).value.0, k, j)
  {
    hide Tree, HeapOk, Pointer, CopyPage, ZeroPages;
    HeapIsTree(lay, r);
    var (r', root) := NewRoot(lay, r, s, r.book[Root(0)]).value;
    NewRootWords(lay, r, s);
    if k == Root(s) {
      CopiedEntry(lay, r, r', s, j);
    } else {
      TreePlace(lay, r, k);
      TreeEntry(lay, r, k, j);
    }
  }

  /** The words of memory after the copy: the new page is the template's root. */
  lemma NewRootWords(lay: Layout, r: Ram, s: nat)
    requires HeapOk(lay, r) && Root(s) !in r.book
    requires (r.book[Root(0)] + 1) * 512 <= |r.mem| && NewRoot(lay, r, s, r.book[Root(0)]).Done?
    ensures var (r', root) := NewRoot(lay, r, s, r.book[Root(0)]).value;
      && root == r.next && r'.book == r.book[Root(s) := r.next] && (r.next + 1) * 512 <= |r'.mem| == |r.mem|
      && (forall w :: 0 <= w < r.next * 512 ==> r'.mem[w] == r.mem[w])
      && (forall w :: r.next * 512 <= w < (r.next + 1) * 512 ==> r'.mem[w] == r.mem[r.book[Root(0)] * 512 + (w - r.next * 512)])
  {
    HeapIsTree(lay, r);
    TreePlace(lay, r, Root(0));
    hide Tree, HeapOk;
  }

  lemma CopiedEntry(lay: Layout, r: Ram, r': Ram, s: nat, j: nat)
    requires HeapOk(lay, r) && s > 0 && Root(s) !in r.book && j < 512 && (r.next + 1) * 512 <= |r'.mem|
    requires r'.book == r.book[Root(s) := r.next] && Root(0) in r.book && r.book[Root(0)] * 512 + j < |r.mem|
    requires r'.mem[r.next * 512 + j] == r.mem[r.book[Root(0)] * 512 + j]
    ensures EntryOk(r', Root(s), j)
  {
    HeapIsTree(lay, r);
    hide Tree, HeapOk, Pointer;
    TreeEntry(lay, r, Root(0), j);
    if j != KERNEL_VPN2 {
      OnlyKernelChild(lay, r, j);
      NoChildYet(lay, r, s, j);
    }
  }

  lemma OnlyKernelChild(lay: Layout, r: Ram, j: nat)
    requires HeapOk(lay, r) && j != KERNEL_VPN2
    ensures Child(Root(0), j) !in r.book
  {
    hide HeapOk;
    var l := Child(Root(0), j);
    if l in r.book { HeapLabel(lay, r, l); }
  }

  lemma NoChildYet(lay: Layout, r: Ram, s: nat, j: nat)
    requires Tree(lay, r) && Root(s) !in r.book && j != KERNEL_VPN2
    ensures Child(Root(s), j) !in r.book
  {
    assert Parent(Child(Root(s), j)) == Root(s);
  }

  // ---- the user image ----

  /** The load loop of create_process2, from byte `off` of the image. */
  function LoadImage(lay: Layout, r: Ram, s: nat, root: nat, image: seq<Byte>, off: nat): (res: Result<Ram>)
    requires Loading(lay, r, s, root, image, off)
    ensures res.Done? ==> Owns(lay, res.value, s, root)
    decreases |image| - off
  {
    if off >= |image| then Done(r)
    else
      LoadReady(lay, r, s, root, image, off);
      hide Loading, Owns, GivePage;
      var r1 :- GivePage(lay, r, s, root, USER_BASE + off, Chunk(image, off));
      LoadStep(lay, r, s, root, image, off);
      LoadImage(lay, r1, s, root, image, off + PAGE_SIZE)
  }

  /** The bytes of one page of the image; the last page may be short. */
  function Chunk(image: seq<Byte>, off: nat): (c: seq<Byte>)
    requires off < |image|
    ensures |c| <= PAGE_SIZE
  {
    image[off..if off + PAGE_SIZE <= |image| then off + PAGE_SIZE else |image|]
  }

  ghost predicate Owns(lay: Layout, r: Ram, s: nat, root: nat) {
    HeapOk(lay, r) && Counted(lay, r) && s > 0 && Root(s) in r.book && r.book[Root(s)] == root
  }

  /** The image fits the user range (user.ld asserts it), whole pages of it are
      loaded, and the rest of the range is still empty. */
  ghost predicate Loading(lay: Layout, r: Ram, s: nat, root: nat, image: seq<Byte>, off: nat) {
    && Owns(lay, r, s, root)
    && |image| <= USER_SIZE && off % PAGE_SIZE == 0 && off <= USER_SIZE
    && forall o :: off <= o < USER_SIZE ==> Vacant(r, s, o)
  }

  ghost predicate Vacant(r: Ram, s: nat, off: nat) {
    UserLabel(s, USER_BASE + off) !in r.book
  }

  lemma LoadReady(lay: Layout, r: Ram, s: nat, root: nat, image: seq<Byte>, off: nat)
    requires Loading(lay, r, s, root, image, off) && off < |image|
    ensures HeapOk(lay, r) && Tree(lay, r) && s > 0 && Root(s) in r.book && root == r.book[Root(s)]
    ensures USER_BASE + off < WORD_LIMIT && InUserRange(USER_BASE + off)
    ensures (USER_BASE + off) % PAGE_SIZE == 0 && UserLabel(s, USER_BASE + off) !in r.book
    ensures Vpn(USER_BASE + off, 2) != KERNEL_VPN2
  {
    UserVpns(USER_BASE + off);
    assert Vacant(r, s, off);
  }

  lemma LoadGiven(lay: Layout, r: Ram, s: nat, root: nat, image: seq<Byte>, off: nat) returns (r2: Ram, r3: Ram)
    requires Loading(lay, r, s, root, image, off) && off < |image|
    requires USER_BASE + off < WORD_LIMIT && Tree(lay, r) && Root(s) in r.book && root == r.book[Root(s)]
    requires Vpn(USER_BASE + off, 2) != KERNEL_VPN2
    requires GivePage(lay, r, s, root, USER_BASE + off, Chunk(image, off)).Done?
    ensures Given(lay, r, r2, r3, GivePage(lay, r, s, root, USER_BASE + off, Chunk(image, off)).value,
                  s, USER_BASE + off, Chunk(image, off))
  {
    hide GivePage, Loading, Given, Tree;
    r2, r3 := GiveSteps(lay, r, s, USER_BASE + off, Chunk(image, off));
  }

  lemma LoadStep(lay: Layout, r: Ram, s: nat, root: nat, image: seq<Byte>, off: nat)
    requires Loading(lay, r, s, root, image, off) && off < |image|
    requires USER_BASE + off < WORD_LIMIT && Tree(lay, r) && Root(s) in r.book && root == r.book[Root(s)]
    requires Vpn(USER_BASE + off, 2) != KERNEL_VPN2
    ensures var res := GivePage(lay, r, s, root, USER_BASE + off, Chunk(image, off));
      res.Done? ==> Loading(lay, res.value, s, root, image, off + PAGE_SIZE)
  {
    hide GivePage, Given, Tree, Chunk, HeapUpTo, Vacant;
    var va, res := USER_BASE + off, GivePage(lay, r, s, root, USER_BASE + off, Chunk(image, off));
    if res.Done? {
      LoadReady(lay, r, s, root, image, off);
      var r2, r3 := LoadGiven(lay, r, s, root, image, off);
      GiveKeepsHeap(lay, r, r2, r3, res.value, s, va, Chunk(image, off));
      GiveExtendsBook(lay, r, r2, r3, res.value, s, va, Chunk(image, off));
      GiveLeavesRest(r, res.value, s, off);
    }
  }

  lemma GiveLeavesRest(r: Ram, r': Ram, s: nat, off: nat)
    requires off % PAGE_SIZE == 0 && forall o :: off <= o < USER_SIZE ==> Vacant(r, s, o)
    requires forall x :: x in r'.book && x !in r.book ==> x == UserLabel(s, USER_BASE + off) || !x.Page?
    ensures forall o :: off + PAGE_SIZE <= o < USER_SIZE ==> Vacant(r', s, o)
  {
    forall o | off + PAGE_SIZE <= o < USER_SIZE ensures Vacant(r', s, o) {
      OtherUserPage(s, off, o);
      assert Vacant(r, s, o);
    }
  }

  lemma OtherUserPage(s: nat, off: nat, o: nat)
    requires off % PAGE_SIZE == 0 && off + PAGE_SIZE <= o < USER_SIZE
    ensures UserLabel(s, USER_BASE + o) != UserLabel(s, USER_BASE + off)
  {
    SamePage(USER_BASE + o, USER_BASE + off);
    UserVpns(USER_BASE + o);
    UserVpns(USER_BASE + off);
  }

  /** Every process sees what it saw before, except that the owner sees the image
      bytes from `off` on at their places. */
  lemma {:induction false} LoadImageFlat(lay: Layout, r: Ram, s: nat, root: nat, image: seq<Byte>, off: nat, k: nat, o: nat)
    requires Loading(lay, r, s, root, image, off) && LoadImage(lay, r, s, root, image, off).Done?
    requires k > 0 && Root(k) in r.book && o < USER_SIZE
    ensures var r' := LoadImage(lay, r, s, root, image, off).value;
      && Root(k) in r'.book && r'.book[Root(k)] == r.book[Root(k)]
      && FlatByte(r'.mem, r'.book[Root(k)], o) ==
         if k == s && off <= o < |image| then image[o] else FlatByte(r.mem, r.book[Root(k)], o)
    decreases |image| - off
  {
    hide GivePage, Given, Tree, FlatByte, Owns;
    if off < |image| {
      LoadReady(lay, r, s, root, image, off);
      LoadStep(lay, r, s, root, image, off);
      var r1 := GivePage(lay, r, s, root, USER_BASE + off, Chunk(image, off)).value;
      var r2, r3 := LoadGiven(lay, r, s, root, image, off);
      LoadKeepsHeap(lay, r1, s, root, image, off + PAGE_SIZE);
      GiveFlat(lay, r, r2, r3, r1, s, USER_BASE + off, Chunk(image, off), k, o);
      UntouchedIsZero(lay, r, s, USER_BASE + off, o);
      LoadImageFlat(lay, r1, s, root, image, off + PAGE_SIZE, k, o);
    }
  }

  lemma LoadKeepsHeap(lay: Layout, r: Ram, s: nat, root: nat, image: seq<Byte>, off: nat)
    requires Loading(lay, r, s, root, image, off)
    ensures HeapOk(lay, r)
  {
  }
}
