/** The kernel's page-table constants and expressions (memory.h, memory.c), in
    the C operators they are written with, and the div/mod forms they equal. */
module Pte {
  import opened Words
  import opened Sv39

  const PT_LEVELS: nat := 3
  const PT_INDEX_BITS: nat := 9
  const PTE_PPN_SHIFT: nat := 10
  const PTE_PPN_BITS: nat := 44

  const PAGE_V: nat := 1
  const PAGE_R: nat := 2
  const PAGE_W: nat := 4
  const PAGE_X: nat := 8
  const PAGE_U: nat := 16
  const PAGE_A: nat := 64
  const PAGE_D: nat := 128

  const KERNEL_RWX: nat := PAGE_R + PAGE_W + PAGE_X
  const USER_RWX: nat := PAGE_U + PAGE_R + PAGE_W + PAGE_X

  /** Flag arguments of map_page: some of R, W, X and U, at least R or X, and
      not the reserved combination W without R. */
  predicate Flags(flags: nat) {
    && flags % 2 == 0 && flags < 32
    && (flags / 2 % 2 == 1 || (flags / 8 % 2 == 1 && flags / 4 % 2 == 0))
  }

  /** Platform memory attributes: only bits 54 and above. */
  predicate Attribute(attr: nat) {
    attr < WORD_LIMIT && attr % 0x40_0000_0000_0000 == 0
  }

  // ---- the C expressions, with the arithmetic they amount to ----

  /** pt_index takes the 9-bit virtual page number of its level. */
  function PtIndex(va: Word, level: nat): (i: nat)
    requires level < PT_LEVELS
    ensures i == Vpn(va, level)
  {
    hide Pow2, And;
    Powers();
    AndLowMask(Shr(va, 12 + level * PT_INDEX_BITS), 9);
    And(Shr(va, 12 + level * PT_INDEX_BITS), Shl(1, PT_INDEX_BITS) - 1)
  }

  /** pte_to_paddr takes the page number and drops flags and attributes. */
  function PteToPaddr(pte: Word): (pa: nat)
    ensures pa == Ppn(pte) * PAGE_SIZE
  {
    PteMaskIsPpn(pte);
    And(Shr(pte, PTE_PPN_SHIFT), Shl(1, PTE_PPN_BITS) - 1) * PAGE_SIZE
  }

  /** The test of the valid bit in map_page. */
  predicate Present(pte: Word)
    ensures Present(pte) <==> V(pte)
  {
    LowBitMask(pte);
    And(pte, PAGE_V) != 0
  }

  /** The non-leaf entry written by map_page for a new table. */
  function PointerExpr(paddr: nat): (pte: Word)
    requires paddr % PAGE_SIZE == 0 && paddr / PAGE_SIZE < PPN_LIMIT
    ensures pte == Pointer(paddr / PAGE_SIZE) == paddr / 4096 * 1024 + 1
  {
    PointerExprIsPointer(paddr / PAGE_SIZE);
    Or(Shl(paddr / PAGE_SIZE, PTE_PPN_SHIFT), PAGE_V)
  }

  /** The leaf entry written by map_page. */
  function LeafExpr(paddr: nat, flags: nat, attr: nat): (pte: Word)
    requires paddr % PAGE_SIZE == 0 && paddr / PAGE_SIZE < PPN_LIMIT && Flags(flags) && Attribute(attr)
    ensures pte == LeafPte(paddr / PAGE_SIZE, flags, attr) == paddr / 4096 * 1024 + flags + 0xC1 + attr
  {
    LeafExprIsLeafPte(paddr / PAGE_SIZE, flags, attr);
    Or(Or(Or(Or(Or(Shl(paddr / PAGE_SIZE, PTE_PPN_SHIFT), flags), PAGE_A), PAGE_D), PAGE_V), attr)
  }

  predicate IsAligned(value: Word)
    ensures IsAligned(value) <==> value % PAGE_SIZE == 0
  {
    IsAlignedIsMod(value);
    And(value, PAGE_SIZE - 1) == 0
  }

  function AlignDown(value: Word): (base: nat)
    ensures base == value / PAGE_SIZE * PAGE_SIZE
  {
    AlignDownRounds(value);
    And(value, Not(PAGE_SIZE - 1))
  }

  /** The upper half of the Sv39 addresses is refused: bits 38 and above. */
  predicate BeyondLowerHalf(va: Word)
    ensures BeyondLowerHalf(va) <==> va >= 0x40_0000_0000
  {
    LowerHalfIsBound(va);
    Shr(va, 12 + PT_LEVELS * PT_INDEX_BITS - 1) != 0
  }

  // ---- their arithmetic forms ----

  function Pointer(f: nat): nat { f * 1024 + 1 }

  function LeafPte(f: nat, flags: nat, attr: nat): nat { f * 1024 + flags + 0xC1 + attr }

  lemma Powers()
    ensures Pow2(1) == 2 && Pow2(6) == 64 && Pow2(7) == 128 && Pow2(8) == 256
    ensures Pow2(9) == 512 && Pow2(10) == 1024 && Pow2(12) == 4096
    ensures Pow2(21) == 0x20_0000 && Pow2(30) == 0x4000_0000
    ensures Pow2(44) == PPN_LIMIT && Pow2(54) == 0x40_0000_0000_0000 && Pow2(64) == WORD_LIMIT
  {
    SmallPowers();
    hide Pow2;
    Pow2Adds(1, 8);
    Pow2Adds(1, 9);
    Pow2Adds(2, 10);
    Pow2Adds(9, 12);
    Pow2Adds(9, 21);
    Pow2Adds(14, 30);
    Pow2Adds(2, 12);
    Pow2Adds(10, 44);
    Pow2Adds(10, 54);
  }

  lemma SmallPowers()
    ensures Pow2(1) == 2 && Pow2(2) == 4 && Pow2(6) == 64 && Pow2(7) == 128 && Pow2(8) == 256
  {
  }

  lemma ShlPageNumber(f: nat)
    requires f < PPN_LIMIT
    ensures Shl(f, PTE_PPN_SHIFT) == f * 1024
  {
    hide Pow2;
    Powers();
  }

  lemma PteMaskIsPpn(pte: Word)
    ensures Shl(1, PTE_PPN_BITS) >= 1
    ensures And(Shr(pte, PTE_PPN_SHIFT), Shl(1, PTE_PPN_BITS) - 1) == Ppn(pte)
  {
    hide Pow2, And;
    Powers();
    assert Shl(1, PTE_PPN_BITS) == PPN_LIMIT;
    AndLowMask(pte / 1024, 44);
  }

  lemma LowBitMask(pte: Word)
    ensures And(pte, PAGE_V) == pte % 2
  {
    hide And;
    assert Pow2(1) == 2;
    AndLowMask(pte, 1);
  }

  lemma IsAlignedIsMod(value: Word)
    ensures And(value, PAGE_SIZE - 1) == value % PAGE_SIZE
  {
    hide Pow2, And;
    Powers();
    AndLowMask(value, 12);
  }

  lemma AlignDownRounds(value: Word)
    ensures And(value, Not(PAGE_SIZE - 1)) == value / PAGE_SIZE * PAGE_SIZE
  {
    hide Pow2, And;
    Powers();
    AndHighMask(value, 64, 12);
  }

  lemma LowerHalfIsBound(va: Word)
    ensures Shr(va, 12 + PT_LEVELS * PT_INDEX_BITS - 1) != 0 <==> va >= 0x40_0000_0000
  {
    hide Pow2;
    Powers();
    Pow2Adds(8, 30);
  }

  lemma PointerExprIsPointer(f: nat)
    requires f < PPN_LIMIT
    ensures Or(Shl(f, PTE_PPN_SHIFT), PAGE_V) == Pointer(f) < WORD_LIMIT
  {
    hide Or, Pow2, Shl;
    Powers();
    ShlPageNumber(f);
    OrAdds(f * 512, 1, 1);
  }

  lemma LeafExprIsLeafPte(f: nat, flags: nat, attr: nat)
    requires f < PPN_LIMIT && Flags(flags) && Attribute(attr)
    ensures Or(Or(Or(Or(Or(Shl(f, PTE_PPN_SHIFT), flags), PAGE_A), PAGE_D), PAGE_V), attr) == LeafPte(f, flags, attr)
    ensures LeafPte(f, flags, attr) < WORD_LIMIT
  {
    hide Or, Pow2, Shl;
    Powers();
    LeafFlagsExpr(f, flags);
    var low, high := f * 1024 + flags + 0xC1, attr / 0x40_0000_0000_0000;
    assert attr == high * 0x40_0000_0000_0000;
    OrAdds(high, low, 54);
    OrCommutes(low, attr);
  }

  lemma LeafFlagsExpr(f: nat, flags: nat)
    requires f < PPN_LIMIT && flags % 2 == 0 && flags < 32
    ensures Or(Or(Or(Or(Shl(f, PTE_PPN_SHIFT), flags), PAGE_A), PAGE_D), PAGE_V) == f * 1024 + flags + 0xC1
  {
    hide Or, Pow2, Shl;
    Powers();
    ShlPageNumber(f);
    OrAdds(f, flags, 10);
    OrBit(f, flags, 6);
    OrBit(f, flags + 64, 7);
    var h := flags / 2;
    OrAdds(f * 512 + h + 96, 1, 1);
  }

  /** Or with a bit above `low` but below bit 10. */
  lemma OrBit(h: nat, low: nat, k: nat)
    requires low < Pow2(k) < 1024
    ensures Or(h * 1024 + low, Pow2(k)) == h * 1024 + low + Pow2(k)
  {
    hide Or, Pow2;
    Powers();
    OrAboveLow(h, low, Pow2(k), 10);
    OrSmall(low, k);
  }

  /** Setting a bit above a value adds it. */
  lemma OrSmall(a: nat, k: nat)
    requires a < Pow2(k)
    ensures Or(a, Pow2(k)) == a + Pow2(k)
  {
    hide Or, Pow2;
    OrAdds(1, a, k);
    OrCommutes(a, Pow2(k));
  }

  /** What the hardware reads out of the two kinds of entry. */
  lemma PointerFields(f: nat)
    requires f < PPN_LIMIT
    ensures Pointer(f) < WORD_LIMIT
    ensures var e: Word := Pointer(f);
            V(e) && !R(e) && !W(e) && !X(e) && !U(e) && !A(e) && !D(e) && Attr(e) == 0 && Ppn(e) == f
  {
    LowBits(Pointer(f), f, 1);
  }

  lemma PointerPpn(f: nat)
    requires f < PPN_LIMIT
    ensures Pointer(f) < WORD_LIMIT && Ppn(Pointer(f)) == f
  {
    hide V, R, W, X, U, A, D, Attr;
    PointerFields(f);
  }

  lemma LeafFields(f: nat, flags: nat, attr: nat)
    requires f < PPN_LIMIT && Flags(flags) && Attribute(attr)
    ensures LeafPte(f, flags, attr) < WORD_LIMIT
    ensures var e: Word := LeafPte(f, flags, attr);
            && V(e) && A(e) && D(e) && Ppn(e) == f && Attr(e) == attr / 0x40_0000_0000_0000
            && (R(e) <==> flags / 2 % 2 == 1) && (W(e) <==> flags / 4 % 2 == 1)
            && (X(e) <==> flags / 8 % 2 == 1) && (U(e) <==> flags / 16 % 2 == 1)
  {
    var high, low := attr / 0x40_0000_0000_0000, flags + 0xC1;
    var e, q := LeafPte(f, flags, attr), f + high * PPN_LIMIT;
    assert e == q * 1024 + low;
    assert e / 1024 == q;
    LowBits(e, q, low);
    LeafFlagBits(flags);
  }

  lemma LeafFlagBits(flags: nat)
    requires flags % 2 == 0 && flags < 32
    ensures var low := flags + 0xC1;
            && low % 2 == 1 && low / 64 % 2 == 1 && low / 128 % 2 == 1
            && low / 2 % 2 == flags / 2 % 2 && low / 4 % 2 == flags / 4 % 2
            && low / 8 % 2 == flags / 8 % 2 && low / 16 % 2 == flags / 16 % 2
  {
    var h := flags / 2;
    assert h == 0 || h == 1 || h == 2 || h == 3 || h == 4 || h == 5 || h == 6 || h == 7
        || h == 8 || h == 9 || h == 10 || h == 11 || h == 12 || h == 13 || h == 14 || h == 15;
    assert flags == 2 * h;
  }

  lemma LowBits(e: nat, q: nat, low: nat)
    requires e == q * 1024 + low && low < 1024
    ensures e % 2 == low % 2 && e / 2 % 2 == low / 2 % 2 && e / 4 % 2 == low / 4 % 2
    ensures e / 8 % 2 == low / 8 % 2 && e / 16 % 2 == low / 16 % 2
    ensures e / 64 % 2 == low / 64 % 2 && e / 128 % 2 == low / 128 % 2
  {
    HalfStep(e, q * 512, low);
    HalfStep(e / 2, q * 256, low / 2);
    HalfStep(e / 4, q * 128, low / 4);
    HalfStep(e / 8, q * 64, low / 8);
    HalfStep(e / 16, q * 32, low / 16);
    HalfStep(e / 32, q * 16, low / 32);
    HalfStep(e / 64, q * 8, low / 64);
    HalfStep(e / 128, q * 4, low / 128);
  }

  lemma HalfStep(e: nat, t: nat, low: nat)
    requires e == 2 * t + low
    ensures e / 2 == t + low / 2 && e % 2 == low % 2
  {
  }
}
