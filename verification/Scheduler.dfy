/** Process slots and the scheduling decisions of process.c. */
module Scheduler {
  import opened Words
  import opened Sv39
  import opened TrapFrame

  const PROCS_MAX: nat := 8

  datatype State = Unused | Runnable | Sleeping | Exited

  /** sstatus, as far as the kernel looks at it. */
  datatype Status = Status(sie: bool, spie: bool, spp: Mode)

  /** The kernel call chain a process is suspended in: where yield() returns to,
      and the two values handle_trap keeps on the stack across it. */
  datatype Call =
    | Entry                               // never run: switch_context returns to user_entry
    | Boot                                // yield() in create_user_processes
    | Tick(pc: Word, status: Status)      // yield() in handle_interrupt
    | Getchar(pc: Word, status: Status)   // yield() under syscall_getchar
    | Sleep(pc: Word, status: Status)     // yield() under syscall_sleep
    | Dead                                // yield() in syscall_exit

  /** struct process. The top FRAME_WORDS words of the kernel stack are `frame`;
      the C frames and switch frame below them are `call`. */
  datatype Slot = Slot(pid: Word, state: State, wake: Word, root: nat, arg: Word, frame: seq<Word>, call: Call)

  type Slots = seq<Slot>

  /** A slot as the C runtime leaves it: all zero. */
  function UnusedSlot(): (s: Slot)
    ensures s.pid == 0 && s.state == Unused && |s.frame| == FRAME_WORDS
  {
    Slot(0, Unused, 0, 0, 0, seq(FRAME_WORDS, _ => 0), Dead)
  }

  /** Slot 0 is idle with pid 0, always RUNNABLE; slots 1 to users hold pid
      slot + 1; the others were never used. */
  ghost predicate SlotShape(slots: Slots, users: nat, i: nat)
    requires i < |slots|
  {
    if i == 0 then slots[i].pid == 0 && slots[i].state == Runnable
    else if i <= users then slots[i].pid == i + 1 && slots[i].state != Unused
    else slots[i].pid == 0 && slots[i].state == Unused
  }

  ghost predicate Shape(slots: Slots, users: nat) {
    && |slots| == PROCS_MAX && users < PROCS_MAX
    && forall i :: 0 <= i < PROCS_MAX ==> SlotShape(slots, users, i)
  }

  /** The i-th slot that the scan of yield looks at, for a current pid `start`. */
  function Probe(start: nat, i: nat): (k: nat)
    ensures k < PROCS_MAX
  {
    (start + i) % PROCS_MAX
  }

  predicate Candidate(slots: Slots, k: nat)
    requires k < |slots|
  {
    slots[k].state == Runnable && slots[k].pid > 0
  }

  /** The scan of yield from offset i on; idle_proc when it finds nobody. */
  function Search(slots: Slots, start: nat, i: nat): (k: nat)
    requires |slots| == PROCS_MAX && i <= PROCS_MAX
    ensures k < PROCS_MAX
    decreases PROCS_MAX - i
  {
    if i == PROCS_MAX then 0
    else if Candidate(slots, Probe(start, i)) then Probe(start, i)
    else Search(slots, start, i + 1)
  }

  /** The slot that yield chooses. */
  function Pick(slots: Slots, cur: nat): (k: nat)
    requires |slots| == PROCS_MAX && cur < PROCS_MAX
    ensures k < PROCS_MAX
  {
    Search(slots, slots[cur].pid, 0)
  }

  /** wake_expired_processes. */
  function Wake(slots: Slots, now: nat): (w: Slots)
    ensures |w| == |slots|
    ensures forall i :: 0 <= i < |slots| ==> w[i] == WakeSlot(slots[i], now)
  {
    seq(|slots|, i requires 0 <= i < |slots| => WakeSlot(slots[i], now))
  }

  function WakeSlot(s: Slot, now: nat): Slot {
    if s.state == Sleeping && now >= s.wake then s.(state := Runnable) else s
  }

  /** How many slots the scan looks at before slot t. */
  function Distance(slots: Slots, cur: nat, t: nat): nat
    requires cur < |slots| && slots[cur].pid <= PROCS_MAX && t < PROCS_MAX
  {
    OffsetTo(slots[cur].pid, t)
  }

  function OffsetTo(start: nat, t: nat): (d: nat)
    requires start <= PROCS_MAX && t < PROCS_MAX
    ensures d < PROCS_MAX && Probe(start, d) == t
  {
    if start == PROCS_MAX then t else if t >= start then t - start else t + PROCS_MAX - start
  }

  lemma ProbeIsLinear(start: nat, i: nat)
    requires start <= PROCS_MAX && i < PROCS_MAX
    ensures Probe(start, i) == if start + i < PROCS_MAX then start + i else start + i - PROCS_MAX
  {
  }

  /** The scan stops at the first candidate, and only there. */
  lemma {:induction false} SearchResult(slots: Slots, start: nat, i: nat) returns (j: nat)
    requires |slots| == PROCS_MAX && i <= PROCS_MAX
    ensures i <= j <= PROCS_MAX
    ensures forall m :: i <= m < j ==> !Candidate(slots, Probe(start, m))
    ensures j == PROCS_MAX ==> Search(slots, start, i) == 0
    ensures j < PROCS_MAX ==> Search(slots, start, i) == Probe(start, j) && Candidate(slots, Probe(start, j))
    decreases PROCS_MAX - i
  {
    hide Probe, Candidate;
    if i < PROCS_MAX && !Candidate(slots, Probe(start, i)) {
      j := SearchResult(slots, start, i + 1);
    } else {
      j := i;
    }
  }

  /** yield chooses idle exactly when no user process is RUNNABLE; whom it
      chooses is RUNNABLE. */
  lemma PickIsRunnable(slots: Slots, users: nat, cur: nat)
    requires Shape(slots, users) && cur <= users
    ensures slots[Pick(slots, cur)].state == Runnable && Pick(slots, cur) <= users
    ensures Pick(slots, cur) == 0 <==> forall t :: 1 <= t <= users ==> slots[t].state != Runnable
  {
    hide Probe, OffsetTo;
    assert SlotShape(slots, users, cur);
    var k, start := Pick(slots, cur), slots[cur].pid;
    var j := SearchResult(slots, start, 0);
    assert SlotShape(slots, users, k) && SlotShape(slots, users, 0);
    forall t | 1 <= t <= users && slots[t].state == Runnable ensures k != 0 {
      assert SlotShape(slots, users, t);
      assert Candidate(slots, Probe(start, OffsetTo(start, t)));
    }
  }

  /** Round robin, in numbers: of all RUNNABLE user processes yield chooses the first
      one after the current slot, counted around the table of eight; from idle, the
      first of all. */
  lemma PickIsNext(slots: Slots, users: nat, cur: nat, t: nat)
    requires Shape(slots, users) && cur <= users && 1 <= t <= users && slots[t].state == Runnable
    ensures var k := Pick(slots, cur);
      && 1 <= k <= users && slots[k].state == Runnable
      && if cur == 0 then k <= t else (k + 7 - cur) % 8 <= (t + 7 - cur) % 8
  {
    assert SlotShape(slots, users, t) && SlotShape(slots, users, cur);
    var k, start := Pick(slots, cur), slots[cur].pid;
    PickIsRunnable(slots, users, cur);
    assert SlotShape(slots, users, k);
    assert Candidate(slots, Probe(start, OffsetTo(start, t)));
    OffsetInNumbers(cur, t);
    hide Probe, OffsetTo;
    var j := SearchResult(slots, start, 0);
    OffsetIsInverse(start, j);
    OffsetInNumbers(cur, k);
  }

  lemma OffsetInNumbers(cur: nat, t: nat)
    requires cur < PROCS_MAX && t < PROCS_MAX
    ensures OffsetTo(if cur == 0 then 0 else cur + 1, t) == if cur == 0 then t else (t + 7 - cur) % 8
  {
  }

  lemma OffsetIsInverse(start: nat, j: nat)
    requires start <= PROCS_MAX && j < PROCS_MAX
    ensures OffsetTo(start, Probe(start, j)) == j
  {
    ProbeIsLinear(start, j);
  }

  /** Fairness: a waiting RUNNABLE process is chosen, or another user process is
      and the waiting one has come strictly closer. */
  lemma PickComesCloser(slots: Slots, users: nat, cur: nat, t: nat)
    requires Shape(slots, users) && cur <= users && 1 <= t <= users && t != cur
    requires slots[t].state == Runnable
    ensures slots[cur].pid <= PROCS_MAX && slots[Pick(slots, cur)].pid <= PROCS_MAX
    ensures Pick(slots, cur) != 0 && Pick(slots, cur) != cur
    ensures Pick(slots, cur) != t ==> Distance(slots, Pick(slots, cur), t) < Distance(slots, cur, t)
  {
    assert SlotShape(slots, users, t) && SlotShape(slots, users, cur);
    var k, start := Pick(slots, cur), slots[cur].pid;
    var d := OffsetTo(start, t);
    PickIsRunnable(slots, users, cur);
    assert SlotShape(slots, users, k);
    hide Probe, OffsetTo;
    var j := SearchResult(slots, start, 0);
    assert Candidate(slots, Probe(start, d));
    CloserArithmetic(start, j, t, k);
  }

  lemma CloserArithmetic(start: nat, j: nat, t: nat, k: nat)
    requires start <= PROCS_MAX && 1 <= t < PROCS_MAX && j <= OffsetTo(start, t) && k == Probe(start, j) && start != t + 1
    ensures k != t ==> OffsetTo(k + 1, t) < OffsetTo(start, t)
    ensures start > 0 ==> k != start - 1
  {
    hide Probe;
    ProbeIsLinear(start, j);
  }
}
