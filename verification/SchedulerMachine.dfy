/**
 The scheduler as a machine: every core takes the steps of schedule(),
 scheduler_start(), thread_create_ex(), thread_exit_code(),
 process_spawn_args_and_wait() and switch_context[_release](), and the steps of
 different cores interleave freely.

 What happens under `scheduler_lock` is one step, except for the scan of
 next_ready_after(): it reads `running_on_core` words that other cores clear
 outside the lock, so it advances one slot a step.  Everything after the lock is
 released is separate too: free the dead stack, read the new stack pointer and push
 the registers, store the old stack pointer, clear the flag, load the new one.  A panic
 is a halt: the step is not enabled.
 */
module SchedulerMachine {
  import opened Common
  import opened SchedulerTable

  datatype Pc =
    | Boot                                  // on the boot stack, no thread yet
    | Run                                   // executing its current thread
    | Exiting                               // exit code delivered, zombie mark still to come
    | Dead                                  // marked zombie, about to call schedule()
    | Scan(round: nat, starting: bool)      // inside next_ready_after(), holding the lock
    | Reap(stack: nat)                      // lock released, zombie's stack still to be freed
    | Fetch(from: int)                      // about to read threads[next].rsp and call switch_context[_release]()
    | Save(prev: nat, target: Context)      // about to store the old stack pointer
    | Release(prev: nat, target: Context)   // about to clear the old thread's running_on_core
    | Jump(target: Context)                 // about to load the new stack pointer

  /** The slot and the thread a caller of process_spawn_args_and_wait() waits for, and its local `exit_code`. */
  datatype Wait = Wait(slot: nat, child: nat, frame: nat)

  /** What happened so far, per thread_create_ex() call. */
  datatype Record = Record(
    version: nat,            // how far this thread has run
    stack: nat,              // the heap block its stack is
    passed: seq<int>,        // codes this thread passed to thread_exit_code()
    waiting: Option<Wait>)   // the wait this thread is inside

  /** One store through exit_code_out: who made it, and the value. */
  datatype Delivery = Delivery(writer: nat, code: int)

  /** A local `exit_code` in the stack frame of a waiter, and what happened to it. */
  datatype Frame = Frame(
    owner: nat,              // the waiter
    child: nat,              // the thread it spawned
    stores: seq<Delivery>,   // every store to this address
    returned: Option<int>)   // what the wait returned

  /**
   The memory of the stacks. Words of a block are numbered from its top, from 1 on; each
   has the thread that wrote it last. A thread's stack is the first `depth` words.
   */
  datatype StackMemory = StackMemory(depth: seq<nat>, writer: map<(nat, nat), nat>)

  datatype State = State(
    table: Table,
    pc: seq<Pc>,
    live: seq<Option<Context>>,  // the stack each core stands on, and how far its thread has run
    lock: Option<nat>,
    log: seq<Record>,
    freed: seq<nat>,             // threads whose stacks were given back, in order
    frames: seq<Frame>,          // the frames exit codes can be stored into, by address
    mem: StackMemory)

  /** A created thread's stack is any block kmalloc() may return: one that no allocation still holds. */
  datatype Step =
    | Work(c: nat, depth: nat)
    | CreateThread(c: nat, stack: nat)
    | SpawnAndWait(c: nat, stack: nat)
    | Poll(c: nat)
    | Exit(c: nat, code: int)
    | MarkZombie(c: nat)
    | EnterSchedule(c: nat)
    | EnterStart(c: nat)
    | ScanOne(c: nat)
    | FreeStack(c: nat)
    | FetchRsp(c: nat)
    | SaveRsp(c: nat)
    | ClearFlag(c: nat)
    | LoadRsp(c: nat)

  predicate Shape(s: State) {
    && WellSized(s.table)
    && |s.pc| == |s.live| == |s.table.current|
    && (s.lock.Some? ==> s.lock.value < |s.pc|)
    && (forall c | 0 <= c < |s.pc| :: PcInRange(s, s.pc[c]))
  }

  predicate PcInRange(s: State, pc: Pc) {
    match pc
    case Scan(round, _) => 1 <= round <= |s.table.threads| + 1
    case Fetch(prev) => -1 <= prev < |s.table.threads|
    case Save(prev, _) => prev < |s.table.threads|
    case Release(prev, _) => prev < |s.table.threads|
    case _ => true
  }

  function NewRecord(stack: nat): Record {
    Record(0, stack, [], None)
  }

  /** Every stack in this block has been given back. */
  predicate BlockFree(s: State, stack: nat) {
    forall b | 0 <= b < |s.log| :: s.log[b].stack == stack ==> b in s.freed
  }

  /** The birth of the thread whose stack core `c` stands on. */
  function Self(s: State, c: nat): nat
    requires c < |s.live|
  {
    if s.live[c].Some? then s.live[c].value.owner else 0
  }

  predicate Waiting(s: State, c: nat)
    requires c < |s.live|
  {
    Self(s, c) < |s.log| && s.log[Self(s, c)].waiting.Some?
  }

  /** `(int)exit_code`: the 64-bit code truncated to a signed 32-bit integer. */
  function AsInt32(v: int): int {
    (v + 0x8000_0000) % 0x1_0000_0000 - 0x8000_0000
  }

  /** The waiter's local `exit_code`, which starts at 0. */
  function Cell(f: Frame): int {
    if f.stores == [] then 0 else f.stores[|f.stores| - 1].code
  }

  predicate Enabled(s: State, a: Step)
    requires Shape(s)
  {
    && a.c < |s.pc|
    && var pc := s.pc[a.c];
    match a
    case Work(c, _) => pc.Run? && s.live[c].Some? && Self(s, c) < |s.log|
    case CreateThread(c, stack) =>
      (pc.Run? || pc.Boot?) && s.lock.None? && FirstUnused(s.table.threads, 0) >= 0 && BlockFree(s, stack)
    case SpawnAndWait(c, stack) =>
      && pc.Run? && s.live[c].Some? && Self(s, c) < |s.log| && !Waiting(s, c)
      && s.lock.None? && FirstUnused(s.table.threads, 0) >= 0 && BlockFree(s, stack)
    case Poll(c) =>
      && pc.Run? && s.live[c].Some? && Waiting(s, c)
      && var w := s.log[Self(s, c)].waiting.value;
      && w.slot < |s.table.threads| && w.frame < |s.frames|
    case Exit(c, _) =>
      // idle_loop() never exits, and a thread inside a wait is not at an exit
      && pc.Run? && s.live[c].Some? && Self(s, c) < |s.log| && !Waiting(s, c)
      && s.table.current[c] >= 0 && !s.table.threads[s.table.current[c]].isIdle
    case MarkZombie(c) => pc.Exiting? && s.lock.None? && s.table.current[c] >= 0
    case EnterSchedule(c) => (pc.Boot? || pc.Run? || pc.Dead?) && s.lock.None?
    case EnterStart(c) => pc.Boot? && s.lock.None? && s.table.activeCount != 0
    case ScanOne(c) => pc.Scan?
    case FreeStack(c) => pc.Reap?
    case FetchRsp(c) => pc.Fetch? && s.table.current[c] >= 0
    case SaveRsp(c) => pc.Save? && s.live[c].Some?
    case ClearFlag(c) => pc.Release?
    case LoadRsp(c) => pc.Jump?
  }

  function Apply(s: State, a: Step): State
    requires Shape(s) && Enabled(s, a)
  {
    match a
    case Work(c, depth) => DoWork(s, c, depth)
    case CreateThread(c, stack) => DoCreate(s, None, stack)
    case SpawnAndWait(c, stack) => DoSpawn(s, c, stack)
    case Poll(c) => DoPoll(s, c)
    case Exit(c, code) => DoExit(s, c, code)
    case MarkZombie(c) => DoMarkZombie(s, c)
    case EnterSchedule(c) => DoEnter(s, c)
    case EnterStart(c) => s.(lock := Some(c), pc := s.pc[c := Scan(1, true)])
    case ScanOne(c) => DoScan(s, c)
    case FreeStack(c) => s.(freed := s.freed + [s.pc[c].stack], pc := s.pc[c := Fetch(-1)])
    case FetchRsp(c) => DoFetch(s, c)
    case SaveRsp(c) => DoSave(s, c)
    case ClearFlag(c) => DoClear(s, c)
    case LoadRsp(c) => DoLoad(s, c)
  }

  /** Words lo + 1 to hi of a block, written by thread b. */
  function Written(writer: map<(nat, nat), nat>, block: nat, lo: nat, hi: nat, b: nat): map<(nat, nat), nat> {
    writer + map w: nat | lo < w <= hi :: (block, w) := b
  }

  /** Thread b's stack has d words now; those that are new it has written. */
  function Resized(s: State, b: nat, d: nat): StackMemory {
    if b < |s.log| && b < |s.mem.depth| then
      StackMemory(s.mem.depth[b := d], Written(s.mem.writer, s.log[b].stack, s.mem.depth[b], d, b))
    else s.mem
  }

  function Depth(s: State, b: nat): nat { if b < |s.mem.depth| then s.mem.depth[b] else 0 }

  /** The current thread computes; its context moves on, and its stack grows or shrinks to `depth` words. */
  function DoWork(s: State, c: nat, depth: nat): State
    requires c < |s.live| && s.live[c].Some? && Self(s, c) < |s.log|
  {
    var me := Self(s, c);
    var v := s.log[me].version + 1;
    s.(live := s.live[c := Some(Context(me, v))], log := s.log[me := s.log[me].(version := v)],
       mem := Resized(s, me, depth))
  }

  function SetThreads(s: State, threads: seq<Thread>): State {
    s.(table := s.table.(threads := threads))
  }

  /** thread_create_ex() */
  function DoCreate(s: State, exitOut: Option<nat>, stack: nat): State
    requires Shape(s) && 0 <= FirstUnused(s.table.threads, 0)
  {
    FirstUnusedIsFirst(s.table.threads, 0);
    var id := FirstUnused(s.table.threads, 0);
    s.(table := Create(s.table, id, |s.log|, exitOut, false), log := s.log + [NewRecord(stack)],
       mem := NewStack(s.mem, stack, |s.log|))
  }

  /** The stack thread_create_ex() builds: as if the thread had called switch_context() once. */
  function NewStack(mem: StackMemory, block: nat, b: nat): StackMemory {
    StackMemory(mem.depth + [SWITCH_WORDS], Written(mem.writer, block, 0, SWITCH_WORDS, b))
  }

  /** process_spawn_args_and_wait() up to its loop: `exit_code` is 0, and its address goes into the child's slot. */
  function DoSpawn(s: State, c: nat, stack: nat): State
    requires Shape(s) && c < |s.live| && Self(s, c) < |s.log| && 0 <= FirstUnused(s.table.threads, 0)
  {
    FirstUnusedIsFirst(s.table.threads, 0);
    var me := Self(s, c);
    var id := FirstUnused(s.table.threads, 0);
    var s1 := DoCreate(s, Some(|s.frames|), stack);
    s1.(log := s1.log[me := s1.log[me].(waiting := Some(Wait(id, |s.log|, |s.frames|)))],
        frames := s.frames + [Frame(me, |s.log|, [], None)])
  }

  /** One test of `while (thread_is_alive(tid))`; the loop ends when the slot is not ACTIVE, and the frame is read. */
  function DoPoll(s: State, c: nat): State
    requires Shape(s) && c < |s.live| && Waiting(s, c)
    requires var w := s.log[Self(s, c)].waiting.value; w.slot < |s.table.threads| && w.frame < |s.frames|
  {
    var me := Self(s, c);
    var w := s.log[me].waiting.value;
    if s.table.threads[w.slot].state.Active? then s
    else
      var f := s.frames[w.frame];
      s.(frames := s.frames[w.frame := f.(returned := Some(AsInt32(Cell(f))))],
         log := s.log[me := s.log[me].(waiting := None)])
  }

  /** A store to address f; that f is always a known frame is proved, not assumed. */
  function Stored(frames: seq<Frame>, f: nat, d: Delivery): seq<Frame> {
    if f < |frames| then frames[f := frames[f].(stores := frames[f].stores + [d])] else frames
  }

  /** thread_exit_code() up to taking the lock: store the code through the exit_code_out of the current slot. */
  function DoExit(s: State, c: nat, code: int): State
    requires Shape(s) && c < |s.live| && Self(s, c) < |s.log| && s.table.current[c] >= 0
  {
    var me := Self(s, c);
    var out := s.table.threads[s.table.current[c]].exitOut;
    s.(log := s.log[me := s.log[me].(passed := s.log[me].passed + [code])],
       frames := if out.None? then s.frames else Stored(s.frames, out.value, Delivery(me, code)),
       pc := s.pc[c := Exiting])
  }

  function DoMarkZombie(s: State, c: nat): State
    requires Shape(s) && c < |s.pc| && s.table.current[c] >= 0
  {
    var tid := s.table.current[c];
    SetThreads(s, s.table.threads[tid := s.table.threads[tid].(state := Zombie)])
      .(pc := s.pc[c := Dead])
  }

  /** schedule() up to next_ready_after(): with one thread or none, unless it is dead, nothing happens. */
  function DoEnter(s: State, c: nat): State
    requires Shape(s) && c < |s.pc|
  {
    if !PrevIsZombie(s.table, c) && s.table.activeCount <= 1 then s
    else s.(lock := Some(c), pc := s.pc[c := Scan(1, false)])
  }

  /** One round of next_ready_after(), and what follows it when it was the last. */
  function DoScan(s: State, c: nat): State
    requires Shape(s) && c < |s.pc| && s.pc[c].Scan?
  {
    var t := s.table;
    var i := s.pc[c].round;
    var n := |t.threads|;
    if i <= n && !Ready(t.threads[ScanSlot(t.current[c], i, n)]) then
      s.(pc := s.pc[c := s.pc[c].(round := i + 1)])
    else if i <= n then DoCommit(s, c, ScanSlot(t.current[c], i, n))
    else if s.pc[c].starting || PrevIsZombie(t, c) then DoCommit(s, c, t.idle[c])
    else s.(lock := None, pc := s.pc[c := if t.current[c] < 0 then Boot else Run])
  }

  /** The rest of the critical section once the next slot is known. */
  function DoCommit(s: State, c: nat, next: nat): State
    requires Shape(s) && c < |s.pc| && next < |s.table.threads|
  {
    var prev := s.table.current[c];
    var after := if PrevIsZombie(s.table, c) then Reap(s.table.threads[prev].birth) else Fetch(prev);
    s.(table := Commit(s.table, c, next), lock := None, pc := s.pc[c := after])
  }

  /**
   Evaluating the argument `threads[next].rsp`, after the lock was released, then the call
   and the pushes of switch_context[_release]() on the stack the core stands on. The slot
   is claimed, so its stack pointer does not change in between.
   */
  function DoFetch(s: State, c: nat): State
    requires Shape(s) && c < |s.pc| && s.pc[c].Fetch? && s.table.current[c] >= 0
  {
    var target := s.table.threads[s.table.current[c]].rsp;
    var prev := s.pc[c].from;
    s.(pc := s.pc[c := if prev < 0 then Jump(target) else Save(prev, target)],
       mem := if s.live[c].Some? then Resized(s, Self(s, c), Depth(s, Self(s, c)) + SWITCH_WORDS) else s.mem)
  }

  /** `mov %rsi, %rsp` and the pops. */
  function DoLoad(s: State, c: nat): State
    requires Shape(s) && c < |s.pc| && s.pc[c].Jump?
  {
    var target := s.pc[c].target;
    var d := Depth(s, target.owner);
    s.(live := s.live[c := Some(target)], pc := s.pc[c := Run],
       mem := Resized(s, target.owner, if d < SWITCH_WORDS then 0 else d - SWITCH_WORDS))
  }

  /** `mov %rsp, (%rdi)` of switch_context_release */
  function DoSave(s: State, c: nat): State
    requires Shape(s) && c < |s.pc| && s.pc[c].Save? && s.live[c].Some?
  {
    var prev := s.pc[c].prev;
    SetThreads(s, s.table.threads[prev := s.table.threads[prev].(rsp := s.live[c].value)])
      .(pc := s.pc[c := Release(prev, s.pc[c].target)])
  }

  /** `movl $-1, (%rdx)` of switch_context_release */
  function DoClear(s: State, c: nat): State
    requires Shape(s) && c < |s.pc| && s.pc[c].Release?
  {
    var prev := s.pc[c].prev;
    SetThreads(s, s.table.threads[prev := s.table.threads[prev].(runningOn := -1)])
      .(pc := s.pc[c := Jump(s.pc[c].target)])
  }

  /** The state after scheduler_init() and scheduler_create_idle_threads(cores) on a table of n slots. */
  function Initial(n: nat, cores: nat): State
    requires cores <= n && 0 < n
  {
    State(
      InitialTable(n, cores),
      seq(cores, _ => Boot),
      seq(cores, _ => None),
      None,
      seq(cores, i requires 0 <= i => NewRecord(i)),
      [],
      [],
      InitialMemory(cores))
  }

  /** The stacks of the idle threads. */
  function InitialMemory(cores: nat): StackMemory {
    StackMemory(seq(cores, _ => SWITCH_WORDS),
                map b: nat, w: nat | b < cores && 1 <= w <= SWITCH_WORDS :: (b, w) := b)
  }

  ghost predicate Next(s: State, s': State) {
    Shape(s) && exists a :: Enabled(s, a) && s' == Apply(s, a)
  }

  /** Every run of the machine, of any length and any interleaving. */
  ghost predicate IsRun(run: seq<State>, n: nat, cores: nat)
    requires cores <= n && 0 < n
  {
    && 0 < |run|
    && run[0] == Initial(n, cores)
    && forall i | 0 <= i < |run| - 1 :: StepAt(run, i)
  }

  ghost predicate StepAt(run: seq<State>, i: nat)
    requires i + 1 < |run|
  {
    Next(run[i], run[i + 1])
  }
}
