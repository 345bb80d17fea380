/** The trap frame of kernel_entry (exception.c, struct trap_frame in kernel.h):
    31 registers, stored in the frame's own order. */
module TrapFrame {
  import opened Words

  type Regs = seq<Word>

  // Register numbers of the RISC-V calling convention.
  const RA: nat := 1
  const SP: nat := 2
  const GP: nat := 3
  const TP: nat := 4
  const T0: nat := 5
  const T1: nat := 6
  const T2: nat := 7
  const S0: nat := 8
  const S1: nat := 9
  const A0: nat := 10
  const A1: nat := 11
  const A2: nat := 12
  const A3: nat := 13
  const A4: nat := 14
  const A5: nat := 15
  const A6: nat := 16
  const A7: nat := 17
  const S2: nat := 18
  const S3: nat := 19
  const S4: nat := 20
  const S5: nat := 21
  const S6: nat := 22
  const S7: nat := 23
  const S8: nat := 24
  const S9: nat := 25
  const S10: nat := 26
  const S11: nat := 27
  const T3: nat := 28
  const T4: nat := 29
  const T5: nat := 30
  const T6: nat := 31

  const FRAME_WORDS: nat := 32   // 31 registers and one word of padding
  const FRAME_A0: nat := 10      // struct trap_frame: a0
  const FRAME_A3: nat := 13      // struct trap_frame: a3

  /** The register kept in word k of the frame. */
  function FrameReg(k: nat): (x: nat)
    requires k < 31
    ensures 1 <= x < 32
  {
    if k == 0 then RA
    else if k < 3 then k + 2                // gp tp
    else if k < 6 then k + 2                // t0 t1 t2
    else if k < 10 then k + 22              // t3 .. t6
    else if k < 18 then k                   // a0 .. a7
    else if k < 20 then k - 10              // s0 s1
    else if k < 30 then k - 2               // s2 .. s11
    else SP
  }

  /** The frame word that keeps register x. */
  function RegSlot(x: nat): (k: nat)
    requires 1 <= x < 32
    ensures k < 31 && FrameReg(k) == x
  {
    if x == RA then 0
    else if x == SP then 30
    else if x < S0 then x - 2
    else if x < A0 then x + 10
    else if x < S2 then x
    else if x < T3 then x + 2
    else x - 22
  }

  /** What kernel_entry stores; the padding word keeps what was there. */
  function FrameOf(regs: Regs, pad: Word): (f: seq<Word>)
    requires |regs| == 32
    ensures |f| == FRAME_WORDS
    ensures forall k :: 0 <= k < 31 ==> f[k] == regs[FrameReg(k)]
  {
    seq(FRAME_WORDS, k requires 0 <= k < FRAME_WORDS => if k < 31 then regs[FrameReg(k)] else pad)
  }

  /** What kernel_entry loads back; x0 reads as zero. */
  function RegsOf(f: seq<Word>): (regs: Regs)
    requires |f| == FRAME_WORDS
    ensures |regs| == 32 && regs[0] == 0
    ensures forall x :: 1 <= x < 32 ==> regs[x] == f[RegSlot(x)]
  {
    seq(32, x requires 0 <= x < 32 => if x == 0 then 0 else f[RegSlot(x)])
  }

  ghost predicate ValidRegs(regs: Regs) { |regs| == 32 && regs[0] == 0 }

  /** The order of struct trap_frame: ra gp tp, t0 to t6, a0 to a7, s0 to s11, sp. */
  lemma FrameLayout(regs: Regs, pad: Word)
    requires |regs| == 32
    ensures FrameOf(regs, pad) == [regs[1], regs[3], regs[4], regs[5], regs[6], regs[7], regs[28], regs[29], regs[30], regs[31]]
      + regs[10..18] + regs[8..10] + regs[18..28] + [regs[2], pad]
  {
    var order := [1, 3, 4, 5, 6, 7, 28, 29, 30, 31];
    assert forall k :: 0 <= k < 10 ==> FrameReg(k) == order[k];
  }

  /** Saving and restoring is the identity on all registers. */
  lemma RestoreUndoesSave(regs: Regs, pad: Word)
    requires ValidRegs(regs)
    ensures RegsOf(FrameOf(regs, pad)) == regs
  {
    var f := FrameOf(regs, pad);
    forall x | 0 <= x < 32 ensures RegsOf(f)[x] == regs[x] {
      if x > 0 { assert f[RegSlot(x)] == regs[FrameReg(RegSlot(x))]; }
    }
  }

  /** Changing the a0 word of the frame changes a0 and no other register. */
  lemma FrameA0(f: seq<Word>, v: Word)
    requires |f| == FRAME_WORDS
    ensures RegsOf(f[FRAME_A0 := v]) == RegsOf(f)[A0 := v]
    ensures f[FRAME_A3] == RegsOf(f)[A3] && f[FRAME_A0] == RegsOf(f)[A0]
  {
    var after, before := RegsOf(f[FRAME_A0 := v]), RegsOf(f)[A0 := v];
    forall x | 0 <= x < 32 ensures after[x] == before[x] {
      if x > 0 { assert RegSlot(x) == FRAME_A0 ==> FrameReg(FRAME_A0) == x; }
    }
    assert RegSlot(A0) == FRAME_A0 && RegSlot(A3) == FRAME_A3;
  }
}
