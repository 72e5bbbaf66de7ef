/**
 The scheduler's shared table: `threads[]`, `active_count`, `current_thread[]`
 and `idle_tid[]` (kernel/src/scheduler.c), as a value with the pure effect of
 each critical section, and as a class whose methods run those critical
 sections with the loops of the original.

 A saved stack pointer is a `Context(owner, version)`: `owner` numbers the
 thread_create_ex() call whose stack it points into, and `version` says how far
 that thread had run when it was saved.  Which heap block that stack is in is
 recorded per call in SchedulerMachine, since blocks are reused.
 */
module SchedulerTable {
  import opened Common

  datatype ThreadState = Unused | Active | Zombie

  datatype Context = Context(owner: nat, version: nat)

  datatype Thread = Thread(
    state: ThreadState,
    rsp: Context,
    birth: nat,      // which thread_create_ex() call filled this slot last
    runningOn: int,  // running_on_core
    isIdle: bool,
    exitOut: Option<nat>)  // exit_code_out: the frame its exit code goes to

  datatype Table = Table(threads: seq<Thread>, activeCount: int, current: seq<int>, idle: seq<int>)

  predicate WellSized(t: Table) {
    && 0 < |t.threads|
    && |t.idle| == |t.current|
    && (forall c | 0 <= c < |t.current| :: -1 <= t.current[c] < |t.threads|)
    && (forall c | 0 <= c < |t.idle| :: 0 <= t.idle[c] < |t.threads|)
  }

  /** The test next_ready_after() applies to one slot. */
  predicate Ready(th: Thread) {
    th.state.Active? && th.runningOn < 0 && !th.isIdle
  }

  /** The slot next_ready_after(start) looks at in its i-th round. */
  function ScanSlot(start: int, i: nat, n: nat): (slot: nat)
    requires 0 < n && -1 <= start && 1 <= i
    ensures slot < n
  {
    (start + i) % n
  }

  /** What next_ready_after(start) still returns once rounds 1..i-1 found nothing. */
  function NextReady(threads: seq<Thread>, start: int, i: nat): int
    requires 0 < |threads| && -1 <= start && 1 <= i
    decreases |threads| + 1 - i
  {
    if i > |threads| then -1
    else if Ready(threads[ScanSlot(start, i, |threads|)]) then ScanSlot(start, i, |threads|)
    else NextReady(threads, start, i + 1)
  }

  /** Number of occupied slots. */
  function Occupied(threads: seq<Thread>): nat {
    if threads == [] then 0
    else Occupied(threads[..|threads| - 1]) + (if threads[|threads| - 1].state.Unused? then 0 else 1)
  }

  function FirstUnused(threads: seq<Thread>, i: nat): int
    requires i <= |threads|
    decreases |threads| - i
  {
    if i == |threads| then -1
    else if threads[i].state.Unused? then i
    else FirstUnused(threads, i + 1)
  }

  predicate PrevIsZombie(t: Table, c: nat)
    requires WellSized(t) && c < |t.current|
  {
    t.current[c] >= 0 && t.threads[t.current[c]].state.Zombie?
  }

  /** The table after core `c` has decided on slot `next` and left its critical section. */
  function Commit(t: Table, c: nat, next: nat): Table
    requires WellSized(t) && c < |t.current| && next < |t.threads|
  {
    var prev := t.current[c];
    var claimed := t.threads[next := t.threads[next].(runningOn := c)];
    if PrevIsZombie(t, c) then
      t.(threads := claimed[prev := claimed[prev].(state := Unused, runningOn := -1)],
         activeCount := t.activeCount - 1,
         current := t.current[c := next])
    else
      t.(threads := claimed, current := t.current[c := next])
  }

  /** The table after thread_create_ex() filled slot `id`. */
  function Create(t: Table, id: nat, birth: nat, exitOut: Option<nat>, isIdle: bool): Table
    requires id < |t.threads|
  {
    t.(threads := t.threads[id := Thread(Active, Context(birth, 0), birth, -1, isIdle, exitOut)],
       activeCount := t.activeCount + 1)
  }

  /** The slot schedule() on core `c` decides on; negative means "keep running". */
  function Decision(t: Table, c: nat): int
    requires WellSized(t) && c < |t.current|
  {
    if !PrevIsZombie(t, c) && t.activeCount <= 1 then -1
    else
      var next := NextReady(t.threads, t.current[c], 1);
      if next < 0 && PrevIsZombie(t, c) then t.idle[c] else next
  }

  const EMPTY_SLOT := Thread(Unused, Context(0, 0), 0, -1, false, None)

  /** The table after scheduler_init() and scheduler_create_idle_threads(cores). */
  function InitialTable(n: nat, cores: nat): Table
    requires cores <= n
  {
    Table(
      seq(n, i => if 0 <= i < cores then Thread(Active, Context(i, 0), i, -1, true, None) else EMPTY_SLOT),
      cores,
      seq(cores, _ => -1),
      seq(cores, i => i))
  }

  // ---- What the scans return ----

  /** The cyclic distance from slot `a` (or -1) forward to slot `b`, between 1 and n. */
  function Distance(a: int, b: int, n: nat): (d: nat)
    requires 0 < n && -1 <= a < n && 0 <= b < n
    ensures 1 <= d <= n
  {
    if a < b then b - a else b - a + n
  }

  lemma SmallRemainder(b: int, n: nat)
    requires 0 <= b < n
    ensures b % n == b
  {
  }

  lemma OnceRound(b: int, n: nat)
    requires 0 <= b < n
    ensures (b + n) % n == b
  {
  }

  lemma DistanceIsRound(a: int, b: int, n: nat)
    requires 0 < n && -1 <= a < n && 0 <= b < n
    ensures ScanSlot(a, Distance(a, b, n), n) == b
  {
    if a >= b {
      OnceRound(b, n);
    } else {
      SmallRemainder(b, n);
    }
  }

  lemma RoundIsDistance(a: int, i: nat, n: nat)
    requires 0 < n && -1 <= a < n && 1 <= i <= n
    ensures Distance(a, ScanSlot(a, i, n), n) == i
  {
    if a + i < n {
      SmallRemainder(a + i, n);
    } else {
      OnceRound(a + i - n, n);
    }
  }

  /**
   next_ready_after() returns the nearest slot after `start` whose thread is ACTIVE, on no core and not an idle
   thread, and -1 exactly when there is none.
   */
  lemma {:induction false} NextReadyIsNearest(threads: seq<Thread>, start: int, i: nat)
    requires 0 < |threads| && -1 <= start < |threads| && 1 <= i <= |threads| + 1
    ensures var r := NextReady(threads, start, i);
      && -1 <= r < |threads|
      && (r >= 0 ==>
            && threads[r].state == Active && threads[r].runningOn < 0 && threads[r].isIdle == false
            && i <= Distance(start, r, |threads|))
      && (forall b | 0 <= b < |threads| && threads[b].state == Active && threads[b].runningOn < 0
                     && threads[b].isIdle == false && i <= Distance(start, b, |threads|) ::
            r >= 0 && Distance(start, r, |threads|) <= Distance(start, b, |threads|))
    decreases |threads| + 1 - i
  {
    var n := |threads|;
    if i <= n {
      var slot := ScanSlot(start, i, n);
      RoundIsDistance(start, i, n);
      if !Ready(threads[slot]) {
        NextReadyIsNearest(threads, start, i + 1);
        forall b | 0 <= b < n && Ready(threads[b]) && i <= Distance(start, b, n)
          ensures i + 1 <= Distance(start, b, n)
        {
          DistanceIsRound(start, b, n);
        }
      }
    }
  }

  /**
   What schedule() decides. It keeps running, without looking, when the current thread is not a zombie and
   active_count is at most one. Otherwise it takes the nearest slot that is ACTIVE, on no core and not idle; when there is
   none, a zombie gives way to its core's idle thread and any other thread keeps running.
   */
  lemma DecisionIs(t: Table, c: nat)
    requires WellSized(t) && c < |t.current|
    ensures var d := Decision(t, c); var cur := t.current[c]; var n := |t.threads|;
      var dead := cur >= 0 && t.threads[cur].state == Zombie;
      && -1 <= d < n
      && (!dead && t.activeCount <= 1 ==> d == -1)
      && (dead || t.activeCount > 1 ==>
            && (forall b | 0 <= b < n && t.threads[b].state == Active && t.threads[b].runningOn < 0
                           && t.threads[b].isIdle == false ::
                  && d >= 0 && t.threads[d].state == Active && t.threads[d].runningOn < 0 && t.threads[d].isIdle == false
                  && Distance(cur, d, n) <= Distance(cur, b, n))
            && ((forall b | 0 <= b < n && t.threads[b].state == Active && t.threads[b].runningOn < 0 :: t.threads[b].isIdle)
                ==> d == if dead then t.idle[c] else -1))
  {
    NextReadyIsNearest(t.threads, t.current[c], 1);
  }

  lemma {:induction false} FirstUnusedIsFirst(threads: seq<Thread>, i: nat)
    requires i <= |threads|
    ensures var r := FirstUnused(threads, i);
      && -1 <= r < |threads|
      && (r >= 0 ==> i <= r && threads[r].state.Unused? && forall b | i <= b < r :: !threads[b].state.Unused?)
      && (r < 0 ==> forall b | i <= b < |threads| :: !threads[b].state.Unused?)
    decreases |threads| - i
  {
    if i < |threads| && !threads[i].state.Unused? {
      FirstUnusedIsFirst(threads, i + 1);
    }
  }

  /** Changing one slot changes the number of occupied slots by that slot alone. */
  lemma {:induction false} OccupiedUpdate(threads: seq<Thread>, i: nat, th: Thread)
    requires i < |threads|
    ensures Occupied(threads[i := th]) ==
            Occupied(threads) - (if threads[i].state.Unused? then 0 else 1) + (if th.state.Unused? then 0 else 1)
  {
    var n := |threads| - 1;
    var updated := threads[i := th];
    if i == n {
      assert updated[..n] == threads[..n];
    } else {
      assert updated[..n] == threads[..n][i := th];
      OccupiedUpdate(threads[..n], i, th);
    }
  }

  /** Two different occupied slots put the count above one. */
  lemma {:induction false} OccupiedTwo(threads: seq<Thread>, a: nat, b: nat)
    requires a < b < |threads| && !threads[a].state.Unused? && !threads[b].state.Unused?
    ensures 2 <= Occupied(threads)
  {
    var without := threads[a := threads[a].(state := Unused)];
    OccupiedUpdate(threads, a, threads[a].(state := Unused));
    OccupiedUpdate(without, b, without[b].(state := Unused));
  }

  // ---- The critical sections as they are written ----

  /** What else thread_create_ex() stores for a thread; `frame` is the top of its stack, from rsp up. */
  datatype Launch = Launch(cr3: nat, heapBrk: nat, name: CString, frame: seq<nat>)

  /** The words of one switch: the return address and the six callee-saved registers. */
  const SWITCH_WORDS: nat := 7

  /** r15, r14, r13, r12, rbx, rbp and the return address. */
  function InitialFrame(trampoline: nat, entry: nat, arg: nat): seq<nat> {
    [0, 0, 0, arg, entry, 0, trampoline]
  }

  datatype Registers = Registers(r15: nat, r14: nat, r13: nat, r12: nat, rbx: nat, rbp: nat, rip: nat)

  /** The pops and the `ret` of switch_context(). */
  function Popped(frame: seq<nat>): Registers
    requires |frame| == 7
  {
    Registers(frame[0], frame[1], frame[2], frame[3], frame[4], frame[5], frame[6])
  }

  datatype Launched = Call(entry: nat, arg: nat) | NullEntryPanic

  /** thread_trampoline */
  function Trampoline(r: Registers): Launched {
    if r.rbx == 0 then NullEntryPanic else Call(r.rbx, r.r12)
  }

  /** The first switch into a new thread lands in the trampoline, which calls its entry with its argument. */
  lemma FirstSwitch(trampoline: nat, entry: nat, arg: nat)
    requires entry != 0
    ensures |InitialFrame(trampoline, entry, arg)| == SWITCH_WORDS
    ensures var r := Popped(InitialFrame(trampoline, entry, arg)); r.rip == trampoline && Trampoline(r) == Call(entry, arg)
  {
  }

  /** "idle" */
  const IDLE_NAME: CString := [105, 100, 108, 101]

  /** The slot keeps 15 characters of the name. */
  function ShortName(name: CString): CString { if |name| <= 15 then name else name[..15] }

  class Scheduler {
    var threads: seq<Thread>
    var launch: seq<Launch>
    const trampoline: nat
    var activeCount: int
    var current: seq<int>
    var idle: seq<int>

    ghost function View(): Table
      reads this
    {
      Table(threads, activeCount, current, idle)
    }

    /** scheduler_init(): every slot unused, no core has a thread. */
    constructor (n: nat, cores: nat, trampoline: nat)
      requires 0 < n
      ensures this.trampoline == trampoline && |launch| == |threads| == n && |current| == |idle| == cores && activeCount == 0
      ensures forall i | 0 <= i < n :: threads[i] == EMPTY_SLOT
      ensures forall c | 0 <= c < cores :: current[c] == -1 && idle[c] == -1
    {
      this.trampoline := trampoline;
      threads := seq(n, _ => EMPTY_SLOT);
      launch := seq(n, _ => Launch(0, 0, [], []));
      activeCount := 0;
      current := seq(cores, _ => -1);
      idle := seq(cores, _ => -1);
    }

    /** next_ready_after() */
    method NextReadyAfter(start: int) returns (slot: int)
      requires 0 < |threads| && -1 <= start < |threads|
      ensures slot == NextReady(threads, start, 1) && -1 <= slot < |threads|
      ensures slot >= 0 ==> threads[slot].state == Active && threads[slot].runningOn < 0 && threads[slot].isIdle == false
      ensures forall b | 0 <= b < |threads| && threads[b].state == Active && threads[b].runningOn < 0
                         && threads[b].isIdle == false ::
                slot >= 0 && Distance(start, slot, |threads|) <= Distance(start, b, |threads|)
    {
      NextReadyIsNearest(threads, start, 1);
      var i := 1;
      while i <= |threads|
        invariant 1 <= i <= |threads| + 1
        invariant NextReady(threads, start, 1) == NextReady(threads, start, i)
      {
        var idx := (start + i) % |threads|;
        if threads[idx].state == Active && threads[idx].runningOn < 0 && !threads[idx].isIdle {
          return idx;
        }
        i := i + 1;
      }
      return -1;
    }

    /**
     thread_create_ex(): a negative result stands for its two panics, a full table and a
     failed allocation of the stack (`haveStack` false).
     */
    method ThreadCreate(birth: nat, exitOut: Option<nat>, haveStack: bool, name: CString, entry: nat, arg: nat, cr3: nat)
      returns (id: int)
      requires |launch| == |threads|
      modifies this`threads, this`activeCount, this`launch
      ensures id == if haveStack then FirstUnused(old(threads), 0) else -1
      ensures -1 <= id < |old(threads)|
      ensures View() == if id < 0 then old(View()) else Create(old(View()), id, birth, exitOut, false)
      ensures launch == if id < 0 then old(launch)
                        else old(launch)[id := Launch(cr3, HEAP_START, ShortName(name), InitialFrame(trampoline, entry, arg))]
    {
      id := -1;
      var i := 0;
      while i < |threads|
        invariant 0 <= i <= |threads|
        invariant FirstUnused(threads, 0) == FirstUnused(threads, i)
      {
        if threads[i].state == Unused {
          id := i;
          break;
        }
        i := i + 1;
      }
      FirstUnusedIsFirst(threads, 0);
      if i == |threads| || !haveStack {
        return -1;
      }
      threads := threads[id := Thread(Active, Context(birth, 0), birth, -1, false, exitOut)];
      activeCount := activeCount + 1;
      var kept := CopyName(name);
      launch := launch[id := Launch(cr3, HEAP_START, kept, [0, 0, 0, arg, entry, 0, trampoline])];
    }

    /** The loop that copies the name. */
    method CopyName(name: CString) returns (kept: CString)
      ensures kept == ShortName(name) && kept <= name && |kept| == if |name| < 15 then |name| else 15
    {
      kept := [];
      var i := 0;
      while i < |name| && i < 15
        invariant 0 <= i <= |name| && i <= 15 && kept == name[..i]
      {
        assert name[i] in name;
        kept := kept + [name[i]];
        i := i + 1;
      }
    }

    /** scheduler_create_idle_threads() on a fresh table with a slot for every core. */
    method CreateIdleThreads(cores: nat, idleLoop: nat, kernelCr3: nat)
      requires 0 < |threads| == |launch| && cores <= |threads| && |current| == |idle| == cores && activeCount == 0
      requires forall i | 0 <= i < |threads| :: threads[i] == EMPTY_SLOT
      requires forall c | 0 <= c < cores :: current[c] == -1
      modifies this`threads, this`activeCount, this`idle, this`launch
      ensures View() == InitialTable(|old(threads)|, cores) && |launch| == |threads|
      ensures forall i | 0 <= i < cores ::
                launch[i] == Launch(kernelCr3, HEAP_START, IDLE_NAME, InitialFrame(trampoline, idleLoop, 0))
    {
      var core := 0;
      while core < cores
        invariant 0 <= core <= cores && activeCount == core
        invariant |threads| == |launch| == |old(threads)| && |idle| == cores
        invariant forall i | 0 <= i < core ::
                    launch[i] == Launch(kernelCr3, HEAP_START, IDLE_NAME, InitialFrame(trampoline, idleLoop, 0))
        invariant forall i | 0 <= i < core :: threads[i] == Thread(Active, Context(i, 0), i, -1, true, None) && idle[i] == i
        invariant forall i | core <= i < |threads| :: threads[i] == EMPTY_SLOT
      {
        FirstUnusedIsFirst(threads, 0);
        assert threads[core] == EMPTY_SLOT;
        var tid := ThreadCreate(core, None, true, IDLE_NAME, idleLoop, 0, kernelCr3);
        threads := threads[tid := threads[tid].(isIdle := true)];
        idle := idle[core := tid];
        core := core + 1;
      }
    }

    /** schedule() up to the release of scheduler_lock. */
    method Schedule(core: nat) returns (next: int, freedStack: Option<nat>)
      requires WellSized(View()) && core < |current|
      modifies this`threads, this`activeCount, this`current
      ensures next == Decision(old(View()), core) && -1 <= next < |old(threads)|
      ensures View() == if next < 0 then old(View()) else Commit(old(View()), core, next)
      ensures freedStack == if PrevIsZombie(old(View()), core)
                            then Some(old(threads[current[core]].birth)) else None
    {
      freedStack := None;
      var prev := current[core];
      var prevIsZombie := prev >= 0 && threads[prev].state == Zombie;
      if !prevIsZombie && activeCount <= 1 {
        return -1, None;
      }
      next := NextReadyAfter(prev);
      NextReadyIsNearest(threads, prev, 1);
      if next < 0 {
        if !prevIsZombie {
          return next, None;
        }
        next := idle[core];
      }
      current := current[core := next];
      threads := threads[next := threads[next].(runningOn := core)];
      if prevIsZombie {
        freedStack := Some(threads[prev].birth);
        threads := threads[prev := threads[prev].(state := Unused, runningOn := -1)];
        activeCount := activeCount - 1;
      }
    }
  }
}
