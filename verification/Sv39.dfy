/** The hardware side of paging, written from the RISC-V Privileged Architecture,
    version 20211203, sections 4.3.2 (translation algorithm) and 4.4 (Sv39).
    Nothing here refers to the kernel's code. Physical memory is a sequence of
    64-bit words indexed by physical word number; word 512*f + i is entry i of
    the page-sized table held in page f. */
module Sv39 {
  import opened Words

  type Mem = seq<Word>

  const PAGE_SIZE: nat := 4096
  const PPN_LIMIT: nat := 0x1000_0000_0000   // 44-bit physical page numbers

  /** Virtual page number field of a level: 9 bits above the 12-bit offset. */
  function Vpn(va: nat, level: nat): (r: nat)
    requires level < 3
    ensures r < 512
  {
    if level == 0 then va / 0x1000 % 512
    else if level == 1 then va / 0x20_0000 % 512
    else va / 0x4000_0000 % 512
  }

  // Fields of a page-table entry (figure 4.21).
  predicate V(pte: Word) { pte % 2 == 1 }
  predicate R(pte: Word) { pte / 2 % 2 == 1 }
  predicate W(pte: Word) { pte / 4 % 2 == 1 }
  predicate X(pte: Word) { pte / 8 % 2 == 1 }
  predicate U(pte: Word) { pte / 16 % 2 == 1 }
  predicate A(pte: Word) { pte / 64 % 2 == 1 }
  predicate D(pte: Word) { pte / 128 % 2 == 1 }
  function Ppn(pte: Word): nat { pte / 1024 % PPN_LIMIT }
  function Attr(pte: Word): nat { pte / 1024 / PPN_LIMIT }

  datatype Leaf = NoLeaf | Leaf(level: nat, pte: Word)
  datatype Access = Fetch | Load | Store
  datatype Mode = User | Super
  datatype Xlate = Fault | At(pa: nat)

  /** Steps 2 to 4 and 6: descend from a table to a leaf entry. A read outside
      physical memory is an access fault; non-leaf entries must keep the
      reserved bits D, A, U and the bits above the page number clear. */
  function WalkFrom(mem: Mem, table: nat, va: nat, level: nat): Leaf
    requires level < 3
    decreases level
  {
    var slot := table * 512 + Vpn(va, level);
    if slot >= |mem| then NoLeaf
    else
      var pte := mem[slot];
      if !V(pte) || (!R(pte) && W(pte)) then NoLeaf
      else if R(pte) || X(pte) then
        if Aligned(pte, level) then Leaf(level, pte) else NoLeaf
      else if level == 0 || D(pte) || A(pte) || U(pte) || Attr(pte) != 0 then NoLeaf
      else WalkFrom(mem, Ppn(pte), va, level - 1)
  }

  /** Step 6: a superpage entry must point at a page aligned to its size. */
  predicate Aligned(pte: Word, level: nat)
    requires level < 3
  {
    Ppn(pte) % (if level == 0 then 1 else if level == 1 then 512 else 0x4_0000) == 0
  }

  /** Section 4.4.1: bits 63 to 39 of an address must all equal bit 38. */
  predicate Canonical(va: nat) {
    va < 0x40_0000_0000 || WORD_LIMIT - 0x40_0000_0000 <= va < WORD_LIMIT
  }

  function Walk(mem: Mem, root: nat, va: nat): Leaf {
    if Canonical(va) then WalkFrom(mem, root, va, 2) else NoLeaf
  }

  /** Steps 5 and 7: permissions, with sstatus.SUM = sstatus.MXR = 0, and the
      accessed and dirty bits, which hardware need not set by itself. */
  predicate Permits(pte: Word, access: Access, mode: Mode) {
    && (if mode == User then U(pte) else !U(pte))
    && A(pte)
    && match access
       case Fetch => X(pte)
       case Load => R(pte)
       case Store => W(pte) && D(pte)
  }

  /** Step 8, from a leaf. */
  function FromLeaf(leaf: Leaf, va: nat, access: Access, mode: Mode): Xlate {
    if leaf == NoLeaf || !Permits(leaf.pte, access, mode) then Fault
    else
      var span := if leaf.level == 0 then 0x1000 else if leaf.level == 1 then 0x20_0000 else 0x4000_0000;
      At(Ppn(leaf.pte) * PAGE_SIZE + va % span)
  }

  function Translate(mem: Mem, root: nat, va: nat, access: Access, mode: Mode): Xlate {
    FromLeaf(Walk(mem, root, va), va, access, mode)
  }
}
