/** Kernel stacks as coroutines: whatever the other processes do in the kernel, a
    process that was switched away comes back to its own return address, callee-
    saved registers, stack pointer and stack, its trap frame included. */
module KernelStacks {
  import opened Words
  import opened TrapFrame
  import opened Scheduler
  import opened Assembly

  /** The process whose stack word w is on: idle runs on the boot stack, and takes
      its traps on the stack of slot 0. */
  function Owner(w: nat): nat {
    if w >= BOOT_STACK then 0 else w / STACK_WORDS
  }

  /** Stacks, the process that runs on them, and the processes created so far. */
  datatype Kernel = Kernel(s: Stacks, cur: nat, live: set<nat>)

  /** Kernel code of the current process does anything on its own stack and to the
      registers, or calls switch_context. */
  datatype Step = Work(mem: seq<Word>, regs: Regs) | Switch(next: nat)

  /** sp leaves room for a context on the stack of process p. */
  ghost predicate RoomAt(p: nat, sp: nat) {
    CONTEXT_WORDS <= sp <= MEMORY_WORDS && forall w :: sp - CONTEXT_WORDS <= w < sp ==> Owner(w) == p
  }

  /** Process p is switched away: its saved context lies on its own stack. */
  ghost predicate Parked(s: Stacks, p: nat) {
    p < |s.sps| && RoomAt(p, s.sps[p] + CONTEXT_WORDS)
  }

  ghost predicate StacksOk(k: Kernel) {
    && Shaped(k.s) && k.cur in k.live && RoomAt(k.cur, k.s.regs[SP])
    && (forall p :: p in k.live ==> p < PROCS_MAX)
    && (forall p :: p in k.live && p != k.cur ==> Parked(k.s, p))
  }

  /** Memory outside the stack of process p is the same. */
  ghost predicate OnlyOwn(m: seq<Word>, m': seq<Word>, p: nat) {
    |m| == |m'| && forall w :: 0 <= w < |m| && Owner(w) != p ==> m'[w] == m[w]
  }

  ghost predicate Legal(k: Kernel, step: Step) {
    match step
    case Work(mem, regs) => OnlyOwn(k.s.mem, mem, k.cur) && |regs| == 32 && RoomAt(k.cur, regs[SP])
    case Switch(next) => next in k.live && next != k.cur
  }

  function After(k: Kernel, step: Step): (t: Kernel)
    requires StacksOk(k) && Legal(k, step)
  {
    match step
    case Work(mem, regs) => k.(s := k.s.(mem := mem, regs := regs))
    case Switch(next) =>
      assert Parked(k.s, next);
      k.(s := Switched(k.s, k.cur, next), cur := next)
  }

  lemma LoadedContext(s: Stacks, next: nat)
    requires Shaped(s) && next < PROCS_MAX && s.sps[next] + CONTEXT_WORDS <= MEMORY_WORDS
    ensures Loaded(s, next).regs[SP] == s.sps[next] + CONTEXT_WORDS
    ensures ContextOf(Loaded(s, next).regs) == s.mem[s.sps[next]..s.sps[next] + CONTEXT_WORDS]
  {
    var r, c := s.regs[SP := s.sps[next]], s.mem[s.sps[next]..s.sps[next] + CONTEXT_WORDS];
    ContextIsOrder();
    hide LoadIn;
    forall i | 0 <= i < CONTEXT_WORDS ensures ContextOf(Loaded(s, next).regs)[i] == c[i] {
      LoadedAt(r, ContextOrder(), c, CONTEXT_WORDS, ContextReg(i));
    }
  }

  /** Saving writes on the own stack only. */
  lemma SavedMemory(s: Stacks, p: nat)
    requires Shaped(s) && p < PROCS_MAX && RoomAt(p, s.regs[SP])
    ensures OnlyOwn(s.mem, Saved(s, p).mem, p)
  {
    PutAt(s.mem, s.regs[SP] - CONTEXT_WORDS, ContextOf(s.regs));
    hide Put, ContextOf, Owner;
  }

  /** Another process's parked context is the same in both memories. */
  lemma SameContext(m: seq<Word>, m': seq<Word>, p: nat, q: nat, from: nat)
    requires OnlyOwn(m, m', p) && p != q && |m| == MEMORY_WORDS && RoomAt(q, from + CONTEXT_WORDS)
    ensures m'[from..from + CONTEXT_WORDS] == m[from..from + CONTEXT_WORDS]
  {
    hide Owner;
    forall w | from <= w < from + CONTEXT_WORDS ensures m'[w] == m[w] {
      assert Owner(w) == q;
    }
  }

  /** What a switch does, in terms of the contexts. */
  lemma SwitchEffect(k: Kernel, next: nat)
    requires StacksOk(k) && Legal(k, Switch(next))
    ensures var t := After(k, Switch(next)).s;
      && t.sps == k.s.sps[k.cur := k.s.regs[SP] - CONTEXT_WORDS]
      && t.mem == Put(k.s.mem, k.s.regs[SP] - CONTEXT_WORDS, ContextOf(k.s.regs))
      && OnlyOwn(k.s.mem, t.mem, k.cur)
      && t.regs[SP] == k.s.sps[next] + CONTEXT_WORDS
      && ContextOf(t.regs) == k.s.mem[k.s.sps[next]..k.s.sps[next] + CONTEXT_WORDS]
  {
    assert Parked(k.s, next);
    SavedMemory(k.s, k.cur);
    LoadedContext(Saved(k.s, k.cur), next);
    SameContext(k.s.mem, Saved(k.s, k.cur).mem, k.cur, next, k.s.sps[next]);
    hide Put, ContextOf, Owner, RoomAt, LoadIn, OnlyOwn;
  }

  lemma StepKeepsStacks(k: Kernel, step: Step)
    requires StacksOk(k) && Legal(k, step)
    ensures StacksOk(After(k, step))
  {
    if step.Switch? {
      SwitchEffect(k, step.next);
      assert Parked(k.s, step.next);
      hide Switched;
    }
  }

  ghost predicate Runs(k: Kernel, steps: seq<Step>, t: Kernel)
    decreases |steps|
  {
    if |steps| == 0 then t == k
    else StacksOk(k) && Legal(k, steps[0]) && Runs(After(k, steps[0]), steps[1..], t)
  }

  /** No step of the run switches to p. */
  ghost predicate Avoids(steps: seq<Step>, p: nat) {
    forall i :: 0 <= i < |steps| ==> steps[i] != Switch(p)
  }

  /** While others run, the stack of a process that is away, and its saved stack
      pointer, stay as they are. */
  lemma {:induction false} AwayIsUntouched(k: Kernel, steps: seq<Step>, t: Kernel, p: nat)
    requires StacksOk(k) && Runs(k, steps, t) && p in k.live && p != k.cur && Avoids(steps, p)
    ensures StacksOk(t) && t.live == k.live && t.cur != p && t.s.sps[p] == k.s.sps[p]
    ensures forall w :: 0 <= w < MEMORY_WORDS && Owner(w) == p ==> t.s.mem[w] == k.s.mem[w]
    decreases |steps|
  {
    hide Switched, RoomAt;
    if |steps| > 0 {
      assert steps[0] != Switch(p);
      StepKeepsStacks(k, steps[0]);
      if steps[0].Switch? { SwitchEffect(k, steps[0].next); }
      AwayIsUntouched(After(k, steps[0]), steps[1..], t, p);
    }
  }

  /** A process that is switched away and back finds its return address, its
      callee-saved registers, its stack pointer, and its stack down to there. */
  lemma SwitchComesBack(k: Kernel, next: nat, steps: seq<Step>, t: Kernel)
    requires StacksOk(k) && Legal(k, Switch(next))
    requires Runs(After(k, Switch(next)), steps, t) && Avoids(steps, k.cur)
    ensures StacksOk(t) && Legal(t, Switch(k.cur))
    ensures var back := After(t, Switch(k.cur)).s;
      && back.regs[SP] == k.s.regs[SP] && ContextOf(back.regs) == ContextOf(k.s.regs)
      && forall w :: 0 <= w < MEMORY_WORDS && Owner(w) == k.cur && !(k.s.regs[SP] - CONTEXT_WORDS <= w < k.s.regs[SP]) ==>
           back.mem[w] == k.s.mem[w]
  {
    var (p, k1) := (k.cur, After(k, Switch(next)));
    hide Switched, Put, ContextOf, Owner, RoomAt;
    SwitchEffect(k, next);
    StepKeepsStacks(k, Switch(next));
    AwayIsUntouched(k1, steps, t, p);
    SwitchEffect(t, p);
    ContextKept(k.s.mem, t.s.mem, p, k.s.regs[SP] - CONTEXT_WORDS, ContextOf(k.s.regs));
  }

  /** A trap frame from end to end: what kernel_entry stored on its process's stack is
      what it loads again, whatever ran while the process was switched away. */
  lemma FrameComesBack(k: Kernel, next: nat, steps: seq<Step>, t: Kernel, at: nat, regs: Regs, pad: Word)
    requires StacksOk(k) && Legal(k, Switch(next))
    requires Runs(After(k, Switch(next)), steps, t) && Avoids(steps, k.cur)
    requires ValidRegs(regs) && k.s.regs[SP] <= at && at + FRAME_WORDS <= MEMORY_WORDS
    requires forall w :: at <= w < at + FRAME_WORDS ==> Owner(w) == k.cur
    requires k.s.mem[at..at + FRAME_WORDS] == FrameOf(regs, pad)
    ensures StacksOk(t) && Legal(t, Switch(k.cur))
    ensures RegsOf(After(t, Switch(k.cur)).s.mem[at..at + FRAME_WORDS]) == regs
  {
    SwitchComesBack(k, next, steps, t);
    SwitchEffect(t, k.cur);
    RestoreUndoesSave(regs, pad);
    hide Switched, Put, Owner, RoomAt, After, Runs, RegsOf, FrameOf;
    var back := After(t, Switch(k.cur)).s;
    forall w | at <= w < at + FRAME_WORDS ensures back.mem[w] == k.s.mem[w] {
      assert Owner(w) == k.cur;
    }
    assert back.mem[at..at + FRAME_WORDS] == k.s.mem[at..at + FRAME_WORDS];
  }

  /** If memory on the stack of p is as when c was put there, c is still there, and
      the rest is as it was before. */
  lemma ContextKept(m: seq<Word>, m': seq<Word>, p: nat, sp: nat, c: seq<Word>)
    requires |m| == |m'| == MEMORY_WORDS && |c| == CONTEXT_WORDS && RoomAt(p, sp + CONTEXT_WORDS)
    requires forall w :: 0 <= w < MEMORY_WORDS && Owner(w) == p ==> m'[w] == Put(m, sp, c)[w]
    ensures m'[sp..sp + CONTEXT_WORDS] == c
    ensures forall w :: 0 <= w < MEMORY_WORDS && Owner(w) == p && !(sp <= w < sp + CONTEXT_WORDS) ==> m'[w] == m[w]
  {
    PutAt(m, sp, c);
    hide Put, Owner;
    forall w | sp <= w < sp + CONTEXT_WORDS ensures m'[w] == c[w - sp] {
      assert Owner(w) == p;
    }
  }

  /** The first switch to a new process goes to its entry point, with an empty stack
      and zeros in the callee-saved registers. */
  lemma FirstSwitchEnters(s: Stacks, i: nat, entry: Word, k: Kernel, steps: seq<Step>, t: Kernel)
    requires Shaped(s) && i < PROCS_MAX && k.s == Born(s, i, entry)
    requires StacksOk(k) && i in k.live && k.cur != i && Runs(k, steps, t) && Avoids(steps, i)
    ensures StacksOk(t) && Legal(t, Switch(i))
    ensures var first := After(t, Switch(i)).s.regs;
      && first[SP] == Top(i) && first[RA] == entry && forall x :: S2 <= x <= S11 || x == S0 || x == S1 ==> first[x] == 0
  {
    AwayIsUntouched(k, steps, t, i);
    SwitchEffect(t, i);
    var sp, c := Top(i) - CONTEXT_WORDS, [entry] + Zeros(12);
    BornIsParked(s, i, entry);
    ContextKept(s.mem, t.s.mem, i, sp, c);
    hide Switched, Put, Owner, RoomAt, OnlyOwn;
    var first := After(t, Switch(i)).s.regs;
    assert ContextOf(first) == c;
    forall x | S2 <= x <= S11 || x == S0 || x == S1 ensures first[x] == 0 {
      var j := if x == S0 then 1 else if x == S1 then 2 else x - S2 + 3;
      assert ContextOf(first)[j] == first[ContextReg(j)];
    }
    assert ContextOf(first)[0] == first[ContextReg(0)];
  }

  /** A new process is parked: 13 words at the top of its stack. */
  lemma BornIsParked(s: Stacks, i: nat, entry: Word)
    requires Shaped(s) && i < PROCS_MAX
    ensures Parked(Born(s, i, entry), i)
  {
  }
}
