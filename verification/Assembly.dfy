/** The assembly of the kernel: kernel_entry saves and restores a trap frame,
    alloc_process pushes a first context, and switch_context changes stacks.
    Addresses are counted in words of 8 bytes. */
module Assembly {
  import opened Words
  import opened TrapFrame
  import opened Scheduler

  const STACK_WORDS: nat := 1024    // PROCESS_STACK_SIZE / 8
  const CONTEXT_WORDS: nat := 13

  /** proc->stack is stack number i; the boot stack comes last. */
  const BOOT_STACK: nat := PROCS_MAX * STACK_WORDS
  const BOOT_STACK_WORDS: nat := 16384   // 128 KB in kernel.ld
  const MEMORY_WORDS: nat := BOOT_STACK + BOOT_STACK_WORDS

  /** One past the end of a stack: what sscratch holds for process i. */
  function Top(i: nat): nat { (i + 1) * STACK_WORDS }

  /** The register in word k of a switch context. */
  function ContextReg(k: nat): (x: nat)
    requires k < CONTEXT_WORDS
    ensures 1 <= x < 32 && x != SP
  {
    if k == 0 then RA else if k == 1 then S0 else if k == 2 then S1 else S2 + (k - 3)
  }

  /** The registers of a switch context, and of a trap frame, in the order of their words. */
  function ContextOrder(): (order: seq<nat>)
    ensures |order| == CONTEXT_WORDS && forall k :: 0 <= k < CONTEXT_WORDS ==> order[k] == ContextReg(k)
  {
    seq(CONTEXT_WORDS, k requires 0 <= k < CONTEXT_WORDS => ContextReg(k))
  }

  function FrameOrder(): (order: seq<nat>)
    ensures |order| == 31 && forall k :: 0 <= k < 31 ==> order[k] == FrameReg(k)
  {
    seq(31, k requires 0 <= k < 31 => FrameReg(k))
  }

  ghost predicate IsOrder(order: seq<nat>) {
    && (forall k :: 0 <= k < |order| ==> 1 <= order[k] < 32)
    && (forall k, j :: 0 <= k < j < |order| ==> order[k] != order[j])
  }

  /** The values of the listed registers. */
  function Listed(regs: Regs, order: seq<nat>): (c: seq<Word>)
    requires |regs| == 32 && forall k :: 0 <= k < |order| ==> order[k] < 32
    ensures |c| == |order| && forall k :: 0 <= k < |order| ==> c[k] == regs[order[k]]
  {
    seq(|order|, k requires 0 <= k < |order| => regs[order[k]])
  }

  /** The words from `at` on replaced by c. */
  function Put(mem: seq<Word>, at: nat, c: seq<Word>): (m: seq<Word>)
    requires at + |c| <= |mem|
    ensures |m| == |mem|
  {
    mem[..at] + c + mem[at + |c|..]
  }

  lemma PutAt(mem: seq<Word>, at: nat, c: seq<Word>)
    requires at + |c| <= |mem|
    ensures forall w :: 0 <= w < |mem| ==> Put(mem, at, c)[w] == if at <= w < at + |c| then c[w - at] else mem[w]
  {
  }

  lemma PutNext(mem: seq<Word>, at: nat, c: seq<Word>, k: nat)
    requires k < |c| && at + |c| <= |mem|
    ensures Put(mem, at, c[..0]) == mem
    ensures Put(mem, at, c[..k + 1]) == Put(mem, at, c[..k])[at + k := c[k]]
  {
  }

  /** The first n listed registers loaded from c. */
  function LoadIn(regs: Regs, order: seq<nat>, c: seq<Word>, n: nat): (r: Regs)
    requires |regs| == 32 && n <= |order| <= |c| && forall k :: 0 <= k < |order| ==> order[k] < 32
    ensures |r| == 32
  {
    if n == 0 then regs else LoadIn(regs, order, c, n - 1)[order[n - 1] := c[n - 1]]
  }

  /** Listed registers hold the words loaded, the others are as before. */
  lemma {:induction false} LoadedAt(regs: Regs, order: seq<nat>, c: seq<Word>, n: nat, x: nat)
    requires |regs| == 32 && n <= |order| <= |c| && IsOrder(order) && x < 32
    ensures forall k :: 0 <= k < n && order[k] == x ==> LoadIn(regs, order, c, n)[x] == c[k]
    ensures (forall k :: 0 <= k < n ==> order[k] != x) ==> LoadIn(regs, order, c, n)[x] == regs[x]
  {
    if n > 0 { LoadedAt(regs, order, c, n - 1, x); }
  }

  lemma ContextIsOrder()
    ensures IsOrder(ContextOrder())
  {
  }

  lemma FrameIsOrder()
    ensures IsOrder(FrameOrder())
  {
    forall k, j | 0 <= k < j < 31 ensures FrameReg(k) != FrameReg(j) { }
  }

  // ---- what the routines do ----

  /** The kernel's stacks, saved stack pointers (procs[i].sp) and registers. */
  datatype Stacks = Stacks(mem: seq<Word>, sps: seq<Word>, regs: Regs)

  ghost predicate Shaped(s: Stacks) {
    |s.mem| == MEMORY_WORDS && |s.sps| == PROCS_MAX && |s.regs| == 32
  }

  /** What a switch keeps for a process: ra and s0 to s11. */
  function ContextOf(regs: Regs): (c: seq<Word>)
    requires |regs| == 32
    ensures |c| == CONTEXT_WORDS && forall k :: 0 <= k < CONTEXT_WORDS ==> c[k] == regs[ContextReg(k)]
  {
    Listed(regs, ContextOrder())
  }

  /** The first half of switch_context. */
  function Saved(s: Stacks, prev: nat): (t: Stacks)
    requires Shaped(s) && prev < PROCS_MAX && CONTEXT_WORDS <= s.regs[SP] <= MEMORY_WORDS
    ensures Shaped(t)
  {
    var sp := s.regs[SP] - CONTEXT_WORDS;
    Stacks(Put(s.mem, sp, ContextOf(s.regs)), s.sps[prev := sp], s.regs[SP := sp])
  }

  /** The second half. */
  function Loaded(s: Stacks, next: nat): (t: Stacks)
    requires Shaped(s) && next < PROCS_MAX && s.sps[next] + CONTEXT_WORDS <= MEMORY_WORDS
    ensures Shaped(t)
  {
    var sp := s.sps[next];
    s.(regs := LoadIn(s.regs[SP := sp], ContextOrder(), s.mem[sp..sp + CONTEXT_WORDS], CONTEXT_WORDS)[SP := sp + CONTEXT_WORDS])
  }

  ghost predicate CanSwitch(s: Stacks, prev: nat, next: nat) {
    && Shaped(s) && prev < PROCS_MAX && next < PROCS_MAX && prev != next
    && CONTEXT_WORDS <= s.regs[SP] <= MEMORY_WORDS
    && s.sps[next] + CONTEXT_WORDS <= MEMORY_WORDS
  }

  /** switch_context(&procs[prev].sp, &procs[next].sp). */
  function Switched(s: Stacks, prev: nat, next: nat): (t: Stacks)
    requires CanSwitch(s, prev, next)
    ensures Shaped(t)
  {
    Loaded(Saved(s, prev), next)
  }

  // ---- the instructions ----

  class Hart {
    const mem: array<Word>
    const sps: array<Word>
    const regs: array<Word>
    var sscratch: Word

    constructor ()
      ensures fresh(mem) && fresh(sps) && fresh(regs) && Valid()
    {
      mem := new Word[MEMORY_WORDS](_ => 0);
      sps := new Word[PROCS_MAX](_ => 0);
      regs := new Word[32](_ => 0);
      sscratch := 0;
    }

    ghost function Abs(): Stacks
      reads mem, sps, regs
    {
      Stacks(mem[..], sps[..], regs[..])
    }

    /** Three arrays that do not overlap. */
    ghost predicate Valid() {
      && mem.Length == MEMORY_WORDS && sps.Length == PROCS_MAX && regs.Length == 32
      && mem != regs && mem != sps && regs != sps
    }

    /** sd x, k * 8(sp): the next word of c, which so far lies in memory up to k. */
    method Sd(x: nat, k: nat, ghost m: seq<Word>, ghost r: Regs, ghost c: seq<Word>)
      requires Valid() && |m| == MEMORY_WORDS && |r| == 32 && x < 32 && k < |c| && r[SP] + |c| <= MEMORY_WORDS
      requires regs[..] == r && mem[..] == Put(m, r[SP], c[..k]) && r[x] == c[k]
      modifies mem
      ensures regs[..] == r && mem[..] == Put(m, r[SP], c[..k + 1])
    {
      PutNext(m, r[SP], c, k);
      hide Put;
      mem[regs[SP] + k] := regs[x];
    }

    /** ld x, k * 8(sp): the next register of the order, loaded from c. */
    method Ld(x: nat, k: nat, ghost m: seq<Word>, ghost r: Regs, ghost order: seq<nat>, ghost c: seq<Word>)
      requires Valid() && k < |order| <= |c| && order[k] == x && |r| == 32 && forall j :: 0 <= j < |order| ==> order[j] < 32
      requires |m| == MEMORY_WORDS && r[SP] + |c| <= MEMORY_WORDS && mem[..] == m && m[r[SP] + k] == c[k]
      requires regs[..] == LoadIn(r, order, c, k) && regs[SP] == r[SP]
      modifies regs
      ensures mem[..] == m && regs[..] == LoadIn(r, order, c, k + 1)
      ensures x != SP ==> regs[SP] == r[SP]
    {
      regs[x] := mem[regs[SP] + k];
    }

    /** The first half of switch_context. */
    method SaveContext(prev: nat)
      requires Valid() && prev < PROCS_MAX && CONTEXT_WORDS <= regs[SP] <= MEMORY_WORDS
      modifies mem, sps, regs
      ensures Abs() == Saved(old(Abs()), prev)
    {
      ghost var r := regs[..];
      regs[SP] := regs[SP] - 13;
      assert ContextOf(regs[..]) == ContextOf(r);
      hide Put, ContextOf, ContextOrder;
      StoreContext();
      sps[prev] := regs[SP];
    }

    method StoreContext()
      requires Valid() && regs[SP] + CONTEXT_WORDS <= MEMORY_WORDS
      modifies mem
      ensures mem[..] == Put(old(mem[..]), regs[SP], ContextOf(regs[..]))
    {
      ghost var m, r, c := mem[..], regs[..], ContextOf(regs[..]);
      PutNext(m, r[SP], c, 0);
      hide Put, ContextOf;
      StoreContextWords(m, r, c);
      assert c[..13] == c;
    }

    /** r has the stack pointer lowered, and c is its context. */
    ghost predicate Contexting(m: seq<Word>, r: Regs, c: seq<Word>) {
      && Valid() && |m| == MEMORY_WORDS && |r| == 32 && |c| == CONTEXT_WORDS && r[SP] + CONTEXT_WORDS <= MEMORY_WORDS
      && forall k :: 0 <= k < CONTEXT_WORDS ==> c[k] == r[ContextReg(k)]
    }

    /** sd of ra and s0 to s11. */
    method StoreContextWords(ghost m: seq<Word>, ghost r: Regs, ghost c: seq<Word>)
      requires Contexting(m, r, c) && regs[..] == r && mem[..] == Put(m, r[SP], c[..0])
      modifies mem
      ensures regs[..] == r && mem[..] == Put(m, r[SP], c[..13])
    {
      hide Put;
      Sd(RA, 0, m, r, c);
      Sd(S0, 1, m, r, c);
      Sd(S1, 2, m, r, c);
      Sd(S2, 3, m, r, c);
      Sd(S3, 4, m, r, c);
      Sd(S4, 5, m, r, c);
      Sd(S5, 6, m, r, c);
      Sd(S6, 7, m, r, c);
      Sd(S7, 8, m, r, c);
      Sd(S8, 9, m, r, c);
      Sd(S9, 10, m, r, c);
      Sd(S10, 11, m, r, c);
      Sd(S11, 12, m, r, c);
    }

    /** The second half. */
    method LoadContext(next: nat)
      requires Valid() && next < PROCS_MAX && sps[next] + CONTEXT_WORDS <= MEMORY_WORDS
      modifies regs
      ensures Abs() == Loaded(old(Abs()), next)
    {
      regs[SP] := sps[next];
      ghost var m, r := mem[..], regs[..];
      ghost var c := m[r[SP]..r[SP] + CONTEXT_WORDS];
      assert LoadIn(r, ContextOrder(), c, 0) == r;
      hide LoadIn, ContextOrder;
      LoadContextWords(m, r, c);
      regs[SP] := regs[SP] + 13;
    }

    /** c is the context that sp points to. */
    ghost predicate Uncontexting(m: seq<Word>, r: Regs, c: seq<Word>) {
      && Valid() && |m| == MEMORY_WORDS && |r| == 32 && |c| == CONTEXT_WORDS && r[SP] + CONTEXT_WORDS <= MEMORY_WORDS
      && forall k :: 0 <= k < CONTEXT_WORDS ==> m[r[SP] + k] == c[k]
    }

    /** ld of ra and s0 to s11. */
    method LoadContextWords(ghost m: seq<Word>, ghost r: Regs, ghost c: seq<Word>)
      requires Uncontexting(m, r, c) && mem[..] == m && regs[..] == r && r == LoadIn(r, ContextOrder(), c, 0)
      modifies regs
      ensures mem[..] == m && regs[..] == LoadIn(r, ContextOrder(), c, 13) && regs[SP] == r[SP]
    {
      ghost var o := ContextOrder();
      hide LoadIn, ContextOrder;
      Ld(RA, 0, m, r, o, c);
      Ld(S0, 1, m, r, o, c);
      Ld(S1, 2, m, r, o, c);
      Ld(S2, 3, m, r, o, c);
      Ld(S3, 4, m, r, o, c);
      Ld(S4, 5, m, r, o, c);
      Ld(S5, 6, m, r, o, c);
      Ld(S6, 7, m, r, o, c);
      Ld(S7, 8, m, r, o, c);
      Ld(S8, 9, m, r, o, c);
      Ld(S9, 10, m, r, o, c);
      Ld(S10, 11, m, r, o, c);
      Ld(S11, 12, m, r, o, c);
    }

    /** switch_context, instruction by instruction. */
    method SwitchContext(prev: nat, next: nat)
      requires Valid() && CanSwitch(Abs(), prev, next)
      modifies mem, sps, regs
      ensures Abs() == Switched(old(Abs()), prev, next)
    {
      hide Loaded, Put;
      SaveContext(prev);
      LoadContext(next);
    }

    // ---- kernel_entry ----

    /** The registers before, or for, the body of a trap: everything but sp is the
        interrupted code's, and c is the frame that belongs to it. */
    ghost predicate Framing(m: seq<Word>, r: Regs, c: seq<Word>) {
      && Valid() && |m| == MEMORY_WORDS && |r| == 32 && |c| == 31 && r[SP] + 31 <= MEMORY_WORDS
      && forall k :: 0 <= k < 30 ==> c[k] == r[FrameReg(k)]
    }

    /** sd of ra, gp, tp, t0 to t6. */
    method StoreTemporaries(ghost m: seq<Word>, ghost r: Regs, ghost c: seq<Word>)
      requires Framing(m, r, c) && regs[..] == r && mem[..] == Put(m, r[SP], c[..0])
      modifies mem
      ensures regs[..] == r && mem[..] == Put(m, r[SP], c[..10])
    {
      hide Put;
      Sd(RA, 0, m, r, c);
      Sd(GP, 1, m, r, c);
      Sd(TP, 2, m, r, c);
      Sd(T0, 3, m, r, c);
      Sd(T1, 4, m, r, c);
      Sd(T2, 5, m, r, c);
      Sd(T3, 6, m, r, c);
      Sd(T4, 7, m, r, c);
      Sd(T5, 8, m, r, c);
      Sd(T6, 9, m, r, c);
    }

    /** sd of a0 to a7. */
    method StoreArguments(ghost m: seq<Word>, ghost r: Regs, ghost c: seq<Word>)
      requires Framing(m, r, c) && regs[..] == r && mem[..] == Put(m, r[SP], c[..10])
      modifies mem
      ensures regs[..] == r && mem[..] == Put(m, r[SP], c[..18])
    {
      hide Put;
      Sd(A0, 10, m, r, c);
      Sd(A1, 11, m, r, c);
      Sd(A2, 12, m, r, c);
      Sd(A3, 13, m, r, c);
      Sd(A4, 14, m, r, c);
      Sd(A5, 15, m, r, c);
      Sd(A6, 16, m, r, c);
      Sd(A7, 17, m, r, c);
    }

    /** sd of s0 to s11. */
    method StoreCalleeSaved(ghost m: seq<Word>, ghost r: Regs, ghost c: seq<Word>)
      requires Framing(m, r, c) && regs[..] == r && mem[..] == Put(m, r[SP], c[..18])
      modifies mem
      ensures regs[..] == r && mem[..] == Put(m, r[SP], c[..30])
    {
      hide Put;
      Sd(S0, 18, m, r, c);
      Sd(S1, 19, m, r, c);
      Sd(S2, 20, m, r, c);
      Sd(S3, 21, m, r, c);
      Sd(S4, 22, m, r, c);
      Sd(S5, 23, m, r, c);
      Sd(S6, 24, m, r, c);
      Sd(S7, 25, m, r, c);
      Sd(S8, 26, m, r, c);
      Sd(S9, 27, m, r, c);
      Sd(S10, 28, m, r, c);
      Sd(S11, 29, m, r, c);
    }

    /** kernel_entry up to the call of handle_trap: onto the stack that sscratch
        points to, with sscratch back at its top and a0 pointing at the frame. */
    method SaveFrame()
      requires Valid() && FRAME_WORDS <= sscratch <= MEMORY_WORDS
      modifies this, mem, regs
      ensures sscratch == old(sscratch)
      ensures var sp := old(sscratch) - FRAME_WORDS;
        && regs[..] == old(regs[..])[SP := sp][A0 := sp]
        && mem[..] == Put(old(mem[..]), sp, FrameOf(old(regs[..]), old(mem[sscratch - 1])))
    {
      ghost var m, was := mem[..], regs[..];
      SwapStack();
      ghost var r, c := regs[..], FrameOf(was, m[regs[SP] + 31])[..31];
      PutNext(m, r[SP], c, 0);
      PutFrame(m, r[SP], was);
      hide Put, FrameOf;
      StoreTemporaries(m, r, c);
      StoreArguments(m, r, c);
      StoreCalleeSaved(m, r, c);
      StoreSp(m, r, c);
    }

    /** csrrw sp, sscratch, sp; addi sp, sp, -8 * 32. */
    method SwapStack()
      requires Valid() && FRAME_WORDS <= sscratch <= MEMORY_WORDS
      modifies this`sscratch, regs
      ensures sscratch == old(regs[SP]) && regs[..] == old(regs[..])[SP := old(sscratch) - FRAME_WORDS]
    {
      regs[SP], sscratch := sscratch, regs[SP];
      regs[SP] := regs[SP] - 32;
    }

    /** The interrupted sp, from sscratch, completes the frame. */
    method StoreSp(ghost m: seq<Word>, ghost r: Regs, ghost c: seq<Word>)
      requires Framing(m, r, c) && regs[..] == r && mem[..] == Put(m, r[SP], c[..30]) && c[30] == sscratch
      requires r[SP] + FRAME_WORDS <= MEMORY_WORDS
      modifies this`sscratch, regs, mem
      ensures sscratch == r[SP] + FRAME_WORDS && regs[..] == r[A0 := r[SP]] && mem[..] == Put(m, r[SP], c)
    {
      hide Put;
      regs[A0] := sscratch;
      Sd(A0, 30, m, regs[..], c);
      assert c[..31] == c;
      regs[A0] := regs[SP] + 32;
      sscratch := regs[A0];
      regs[A0] := regs[SP];
    }

    /** ld of ra, gp, tp, t0 to t6. */
    method LoadTemporaries(ghost m: seq<Word>, ghost r: Regs, ghost c: seq<Word>)
      requires Unframing(m, r, c) && mem[..] == m && regs[..] == LoadIn(r, FrameOrder(), c, 0) && regs[SP] == r[SP]
      modifies regs
      ensures mem[..] == m && regs[..] == LoadIn(r, FrameOrder(), c, 10) && regs[SP] == r[SP]
    {
      ghost var o := FrameOrder();
      hide LoadIn, FrameOrder;
      Ld(RA, 0, m, r, o, c);
      Ld(GP, 1, m, r, o, c);
      Ld(TP, 2, m, r, o, c);
      Ld(T0, 3, m, r, o, c);
      Ld(T1, 4, m, r, o, c);
      Ld(T2, 5, m, r, o, c);
      Ld(T3, 6, m, r, o, c);
      Ld(T4, 7, m, r, o, c);
      Ld(T5, 8, m, r, o, c);
      Ld(T6, 9, m, r, o, c);
    }

    /** ld of a0 to a7. */
    method LoadArguments(ghost m: seq<Word>, ghost r: Regs, ghost c: seq<Word>)
      requires Unframing(m, r, c) && mem[..] == m && regs[..] == LoadIn(r, FrameOrder(), c, 10) && regs[SP] == r[SP]
      modifies regs
      ensures mem[..] == m && regs[..] == LoadIn(r, FrameOrder(), c, 18) && regs[SP] == r[SP]
    {
      ghost var o := FrameOrder();
      hide LoadIn, FrameOrder;
      Ld(A0, 10, m, r, o, c);
      Ld(A1, 11, m, r, o, c);
      Ld(A2, 12, m, r, o, c);
      Ld(A3, 13, m, r, o, c);
      Ld(A4, 14, m, r, o, c);
      Ld(A5, 15, m, r, o, c);
      Ld(A6, 16, m, r, o, c);
      Ld(A7, 17, m, r, o, c);
    }

    /** ld of s0 to s11. */
    method LoadCalleeSaved(ghost m: seq<Word>, ghost r: Regs, ghost c: seq<Word>)
      requires Unframing(m, r, c) && mem[..] == m && regs[..] == LoadIn(r, FrameOrder(), c, 18) && regs[SP] == r[SP]
      modifies regs
      ensures mem[..] == m && regs[..] == LoadIn(r, FrameOrder(), c, 30) && regs[SP] == r[SP]
    {
      ghost var o := FrameOrder();
      hide LoadIn, FrameOrder;
      Ld(S0, 18, m, r, o, c);
      Ld(S1, 19, m, r, o, c);
      Ld(S2, 20, m, r, o, c);
      Ld(S3, 21, m, r, o, c);
      Ld(S4, 22, m, r, o, c);
      Ld(S5, 23, m, r, o, c);
      Ld(S6, 24, m, r, o, c);
      Ld(S7, 25, m, r, o, c);
      Ld(S8, 26, m, r, o, c);
      Ld(S9, 27, m, r, o, c);
      Ld(S10, 28, m, r, o, c);
      Ld(S11, 29, m, r, o, c);
    }

    /** c is the trap frame that sp points to. */
    ghost predicate Unframing(m: seq<Word>, r: Regs, c: seq<Word>) {
      && Valid() && |m| == MEMORY_WORDS && |r| == 32 && |c| == FRAME_WORDS && r[SP] + FRAME_WORDS <= MEMORY_WORDS
      && forall k :: 0 <= k < FRAME_WORDS ==> m[r[SP] + k] == c[k]
    }

    /** kernel_entry after handle_trap, up to sret. */
    method RestoreFrame()
      requires Valid() && regs[SP] + FRAME_WORDS <= MEMORY_WORDS && regs[0] == 0
      modifies regs
      ensures regs[..] == RegsOf(mem[old(regs[SP])..old(regs[SP]) + FRAME_WORDS])
    {
      ghost var m, r, o := mem[..], regs[..], FrameOrder();
      ghost var c := m[r[SP]..r[SP] + FRAME_WORDS];
      assert LoadIn(r, o, c, 0) == r;
      FrameLoads(r, c);
      hide LoadIn, FrameOrder, RegsOf;
      LoadTemporaries(m, r, c);
      LoadArguments(m, r, c);
      LoadCalleeSaved(m, r, c);
      Ld(SP, 30, m, r, o, c);
    }

    // ---- alloc_process ----

    /** *--sp = v; so far c has been pushed. */
    method Push(sp: nat, v: Word, ghost m: seq<Word>, ghost c: seq<Word>) returns (below: nat)
      requires Valid() && |m| == MEMORY_WORDS && 0 < sp && sp + |c| <= MEMORY_WORDS && mem[..] == Put(m, sp, c)
      modifies mem
      ensures below == sp - 1 && mem[..] == Put(m, below, [v] + c)
    {
      below := sp - 1;
      mem[below] := v;
      assert mem[..] == Put(m, below, [v] + c);
    }

    /** The first context of a process: entry in ra, zeros in s0 to s11. */
    method PushContext(i: nat, entry: Word)
      requires Valid() && i < PROCS_MAX
      modifies mem, sps
      ensures Abs() == Born(old(Abs()), i, entry)
    {
      ghost var m := mem[..];
      var sp := Top(i);
      assert m == Put(m, sp, []);
      for n := 0 to 12
        invariant Valid() && sp == Top(i) - n && mem[..] == Put(m, sp, Zeros(n)) && sps[..] == old(sps[..])
      {
        assert [0] + Zeros(n) == Zeros(n + 1);
        sp := Push(sp, 0, m, Zeros(n));
      }
      sp := Push(sp, entry, m, Zeros(12));
      sps[i] := sp;
    }
  }

  function Zeros(n: nat): (z: seq<Word>)
    ensures |z| == n && forall i :: 0 <= i < n ==> z[i] == 0
  {
    seq(n, _ => 0)
  }

  /** alloc_process: 13 words at the top of the new process's stack. */
  function Born(s: Stacks, i: nat, entry: Word): (t: Stacks)
    requires Shaped(s) && i < PROCS_MAX
    ensures Shaped(t)
  {
    var sp := Top(i) - CONTEXT_WORDS;
    s.(mem := Put(s.mem, sp, [entry] + Zeros(12)), sps := s.sps[i := sp])
  }

  /** The padding word of the frame keeps what memory held. */
  lemma PutFrame(m: seq<Word>, sp: nat, regs: Regs)
    requires |regs| == 32 && sp + FRAME_WORDS <= |m|
    ensures Put(m, sp, FrameOf(regs, m[sp + 31])[..31]) == Put(m, sp, FrameOf(regs, m[sp + 31]))
  {
    var f := FrameOf(regs, m[sp + 31]);
    PutAt(m, sp, f[..31]);
    PutAt(m, sp, f);
  }

  /** Loading all words of a frame gives its registers. */
  lemma FrameLoads(r: Regs, f: seq<Word>)
    requires |r| == 32 && r[0] == 0 && |f| == FRAME_WORDS
    ensures LoadIn(r, FrameOrder(), f, 31) == RegsOf(f)
  {
    FrameIsOrder();
    var all := LoadIn(r, FrameOrder(), f, 31);
    forall x | 0 <= x < 32 ensures all[x] == RegsOf(f)[x] {
      LoadedAt(r, FrameOrder(), f, 31, x);
      if x > 0 { assert FrameOrder()[RegSlot(x)] == x; }
    }
  }
}
