/**
 A run in which two cores stand in one block of memory, and one of them overwrites the
 other's stack: the window that SchedulerTheorems.NoSharedStackMemory leaves open is real,
 and so is the damage that SchedulerStacks describes.
 */
module SchedulerWitness {
  import opened Common
  import opened SchedulerTable
  import opened SchedulerMachine
  import opened SchedulerTheorems
  import opened SchedulerStacks

  ghost predicate Chain(run: seq<State>) {
    0 < |run| && forall i | 0 <= i < |run| - 1 :: StepAt(run, i)
  }

  function Last(run: seq<State>): State
    requires 0 < |run|
  {
    run[|run| - 1]
  }

  lemma Extend(run: seq<State>, a: Step) returns (run': seq<State>)
    requires Chain(run) && Shape(Last(run)) && Enabled(Last(run), a)
    ensures Chain(run') && run'[0] == run[0] && Last(run') == Apply(Last(run), a)
  {
    run' := run + [Apply(Last(run), a)];
    forall i | 0 <= i < |run'| - 1 ensures StepAt(run', i) {
      if i < |run| - 1 {
        assert StepAt(run, i);
        assert run'[i] == run[i] && run'[i + 1] == run[i + 1];
      } else {
        assert run'[i] == Last(run);
        assert Next(run'[i], run'[i + 1]);
      }
    }
  }

  // Three slots, two cores. Slots 0 and 1 hold the idle threads; slot 2 holds `th`.
  function Slots(th: Thread, idle0: int): seq<Thread> {
    [Thread(Active, Context(0, 0), 0, idle0, true, None), Thread(Active, Context(1, 0), 1, -1, true, None), th]
  }

  function Threads(birth: nat, on: int, st: ThreadState): Thread {
    Thread(st, Context(birth, 0), birth, on, false, None)
  }

  /** A state of the story: what is in slot 2, where core 0's idle thread runs, and where the two cores are. */
  function At(th: Thread, idle0: int, count: int, current: seq<int>, pc: seq<Pc>, live: seq<Option<Context>>,
              lock: Option<nat>, log: seq<Record>, freed: seq<nat>, mem: StackMemory): State {
    State(Table(Slots(th, idle0), count, current, [0, 1]), pc, live, lock, log, freed, [], mem)
  }

  const IDLE_LOG: seq<Record> := [Record(0, 0, [], None), Record(0, 1, [], None)]
  const BORN: Record := Record(0, 9, [], None)
  const RAN: Record := Record(1, 9, [], None)
  const GONE: Record := Record(1, 9, [0], None)

  lemma FirstFreeIsTwo(th: Thread, idle0: int)
    requires th.state.Unused?
    ensures FirstUnused(Slots(th, idle0), 0) == 2
  {
    assert FirstUnused(Slots(th, idle0), 2) == 2;
    assert FirstUnused(Slots(th, idle0), 1) == 2;
  }

  /** A core without a thread starts: its scan passes both idle threads and takes slot 2. */
  lemma Picks(run: seq<State>, c: nat, birth: nat, idle0: int) returns (run': seq<State>)
    requires c < 2 && Chain(run) && Shape(Last(run))
    requires var s := Last(run);
      && |s.pc| == 2 && s.pc[c] == Boot && s.lock.None? && s.table.activeCount == 3 && s.table.current[c] == -1
      && s.table.threads == Slots(Threads(birth, -1, Active), idle0)
    ensures Chain(run') && run'[0] == run[0]
    ensures var s, s' := Last(run), Last(run');
      && s' == s.(table := s.table.(threads := Slots(Threads(birth, c, Active), idle0), current := s.table.current[c := 2]),
                  pc := s.pc[c := Fetch(-1)])
      && Shape(s')
  {
    var s := Last(run);
    run' := Extend(run, EnterStart(c));
    ScansPast(s, c);
    run' := Extend(run', ScanOne(c));
    run' := Extend(run', ScanOne(c));
    run' := Extend(run', ScanOne(c));
    var s' := Last(run');
    assert s'.pc == s.pc[c := Fetch(-1)];
    ShapeOf(s, s', c);
  }

  /** It then reads that slot's context and loads it. */
  lemma Loads(run: seq<State>, c: nat) returns (run': seq<State>)
    requires Chain(run) && Shape(Last(run)) && c < |Last(run).pc|
    requires var s := Last(run); s.pc[c] == Fetch(-1) && s.table.current[c] >= 0 && s.lock.None?
    ensures Chain(run') && run'[0] == run[0]
    ensures var s, s' := Last(run), Last(run');
      && s' == s.(live := s.live[c := Some(s.table.threads[s.table.current[c]].rsp)], pc := s.pc[c := Run], mem := s'.mem)
      && Shape(s') && |s'.mem.depth| == |s.mem.depth|
      && (s.live[c].None? ==> forall b | 0 <= b < |s.mem.depth| && b != s.table.threads[s.table.current[c]].rsp.owner ::
            s'.mem.depth[b] == s.mem.depth[b])
  {
    var s := Last(run);
    run' := Extend(run, FetchRsp(c));
    ShapeOf(s, Last(run'), c);
    run' := Extend(run', LoadRsp(c));
    ShapeOf(s, Last(run'), c);
    assert Last(run').pc == s.pc[c := Run];
  }

  /** The three rounds of that scan are steps of the machine. */
  lemma ScansPast(s: State, c: nat)
    requires Shape(s) && |s.pc| == 2 && c < 2 && |s.table.threads| == 3
    ensures forall r, b | 1 <= r <= 4 :: Shape(s.(lock := Some(c), pc := s.pc[c := Scan(r, b)]))
  {
    forall r, b | 1 <= r <= 4 ensures Shape(s.(lock := Some(c), pc := s.pc[c := Scan(r, b)])) {
      var s' := s.(lock := Some(c), pc := s.pc[c := Scan(r, b)]);
      forall d | 0 <= d < |s'.pc| ensures PcInRange(s', s'.pc[d]) { assert PcInRange(s, s.pc[d]); }
    }
  }

  lemma ShapeOf(s: State, s': State, c: nat)
    requires Shape(s) && c < |s.pc| == |s'.pc| == |s'.live| && s'.table.idle == s.table.idle
    requires |s'.table.threads| == |s.table.threads| && |s'.table.current| == |s.table.current| && s'.lock.None?
    requires forall d | 0 <= d < |s.pc| && d != c :: s'.pc[d] == s.pc[d] && s'.table.current[d] == s.table.current[d]
    requires PcInRange(s', s'.pc[c]) && -1 <= s'.table.current[c] < |s.table.threads|
    ensures Shape(s')
  {
    forall d | 0 <= d < |s'.pc| ensures PcInRange(s', s'.pc[d]) { assert PcInRange(s, s.pc[d]); }
  }

  // ---------------------------------------------------------------- the story

  lemma StoryStarts() returns (run: seq<State>)
    ensures Chain(run) && run[0] == Initial(3, 2) && Shape(Last(run)) && |Last(run).mem.depth| == 3
    ensures Last(run) == At(Threads(2, -1, Active), -1, 3, [-1, -1], [Boot, Boot], [None, None], None, IDLE_LOG + [BORN], [],
                            Last(run).mem)
  {
    var s0 := Initial(3, 2);
    assert s0 == At(EMPTY_SLOT, -1, 2, [-1, -1], [Boot, Boot], [None, None], None, IDLE_LOG, [], s0.mem);
    FirstFreeIsTwo(EMPTY_SLOT, -1);
    run := Extend([s0], CreateThread(0, 9));
    ShapeOf(s0, Last(run), 0);
  }

  /** A thread is created in slot 2, core 0 runs it, and its stack grows to 20 words. */
  lemma ThreadRuns() returns (run: seq<State>)
    ensures Chain(run) && run[0] == Initial(3, 2) && Shape(Last(run))
    ensures |Last(run).mem.depth| == 3 && Last(run).mem.depth[2] == 20
    ensures Last(run) == At(Threads(2, 0, Active), -1, 3, [2, -1], [Run, Boot], [Some(Context(2, 1)), None], None,
                            IDLE_LOG + [RAN], [], Last(run).mem)
  {
    run := StoryStarts();
    run := Picks(run, 0, 2, -1);
    run := Loads(run, 0);
    run := Grows(run);
  }

  lemma Grows(run: seq<State>) returns (run': seq<State>)
    requires Chain(run) && Shape(Last(run)) && |Last(run).mem.depth| == 3
    requires Last(run) == At(Threads(2, 0, Active), -1, 3, [2, -1], [Run, Boot], [Some(Context(2, 0)), None], None,
                             IDLE_LOG + [BORN], [], Last(run).mem)
    ensures Chain(run') && run'[0] == run[0] && Shape(Last(run'))
    ensures |Last(run').mem.depth| == 3 && Last(run').mem.depth[2] == 20
    ensures Last(run') == At(Threads(2, 0, Active), -1, 3, [2, -1], [Run, Boot], [Some(Context(2, 1)), None], None,
                             IDLE_LOG + [RAN], [], Last(run').mem)
  {
    var s := Last(run);
    assert (IDLE_LOG + [BORN])[2 := RAN] == IDLE_LOG + [RAN];
    run' := Extend(run, Work(0, 20));
    ShapeOf(s, Last(run'), 0);
  }

  /** It exits; core 0 finds nothing else ready, takes its idle thread, reaps the slot and frees the stack. */
  lemma ThreadDies(run: seq<State>) returns (run': seq<State>)
    requires Chain(run) && Shape(Last(run))
    requires Last(run) == At(Threads(2, 0, Active), -1, 3, [2, -1], [Run, Boot], [Some(Context(2, 1)), None], None,
                             IDLE_LOG + [RAN], [], Last(run).mem)
    ensures Chain(run') && run'[0] == run[0] && Shape(Last(run'))
    ensures Last(run') == At(Threads(2, -1, Unused), 0, 2, [0, -1], [Fetch(-1), Boot], [Some(Context(2, 1)), None], None,
                             IDLE_LOG + [GONE], [2], Last(run).mem)
  {
    var m := Last(run).mem;
    assert [] + [0] == [0] && (IDLE_LOG + [RAN])[2 := GONE] == IDLE_LOG + [GONE];
    run' := Extend(run, Exit(0, 0));
    assert Last(run') == At(Threads(2, 0, Active), -1, 3, [2, -1], [Exiting, Boot], [Some(Context(2, 1)), None], None,
                            IDLE_LOG + [GONE], [], m);
    run' := Extend(run', MarkZombie(0));
    assert Last(run') == Doomed(m);
    run' := Reaps(run', m);
    run' := Frees(run', m);
  }

  lemma Frees(run: seq<State>, m: StackMemory) returns (run': seq<State>)
    requires Chain(run) && Shape(Last(run)) && Last(run) == Reaped(m)
    ensures Chain(run') && run'[0] == run[0] && Shape(Last(run'))
    ensures Last(run') == At(Threads(2, -1, Unused), 0, 2, [0, -1], [Fetch(-1), Boot], [Some(Context(2, 1)), None], None,
                             IDLE_LOG + [GONE], [2], m)
  {
    var s := Last(run);
    run' := Extend(run, FreeStack(0));
    ShapeOf(s, Last(run'), 0);
  }

  /** Core 0 is about to leave its dead thread. */
  function Doomed(m: StackMemory): State {
    At(Threads(2, 0, Zombie), -1, 3, [2, -1], [Dead, Boot], [Some(Context(2, 1)), None], None, IDLE_LOG + [GONE], [], m)
  }

  function Reaped(m: StackMemory): State {
    At(Threads(2, -1, Unused), 0, 2, [0, -1], [Reap(2), Boot], [Some(Context(2, 1)), None], None, IDLE_LOG + [GONE], [], m)
  }

  lemma Reaps(run: seq<State>, m: StackMemory) returns (run': seq<State>)
    requires Chain(run) && Shape(Last(run)) && Last(run) == Doomed(m)
    ensures Chain(run') && run'[0] == run[0] && Shape(Last(run')) && Last(run') == Reaped(m)
  {
    var s := Last(run);
    run' := ScansAll(run, s, m);
    run' := ScanEnds(run', s, m);
  }

  /** One more slot that is not ready. */
  lemma ScanOn(run: seq<State>, s: State, m: StackMemory, k: nat) returns (run': seq<State>)
    requires Chain(run) && Shape(s) && 1 <= k <= 3 && s == Doomed(m)
    requires Last(run) == s.(lock := Some(0), pc := s.pc[0 := Scan(k, false)])
    ensures Chain(run') && run'[0] == run[0] && Last(run') == s.(lock := Some(0), pc := s.pc[0 := Scan(k + 1, false)])
  {
    ScansPast(s, 0);
    run' := Extend(run, ScanOne(0));
  }

  lemma ScansAll(run: seq<State>, s: State, m: StackMemory) returns (run': seq<State>)
    requires Chain(run) && Shape(s) && Last(run) == s == Doomed(m)
    ensures Chain(run') && run'[0] == run[0] && Shape(Last(run'))
    ensures Last(run') == s.(lock := Some(0), pc := s.pc[0 := Scan(4, false)])
  {
    ScansPast(s, 0);
    run' := Extend(run, EnterSchedule(0));
    run' := ScanOn(run', s, m, 1);
    run' := ScanOn(run', s, m, 2);
    run' := ScanOn(run', s, m, 3);
  }

  lemma ScanEnds(run: seq<State>, s: State, m: StackMemory) returns (run': seq<State>)
    requires s == Doomed(m)
    requires Chain(run) && Shape(s) && Shape(Last(run)) && Last(run) == s.(lock := Some(0), pc := s.pc[0 := Scan(4, false)])
    ensures Chain(run') && run'[0] == run[0] && Shape(Last(run')) && Last(run') == Reaped(m)
  {
    run' := Extend(run, ScanOne(0));
    var s' := Last(run');
    assert s'.table.threads == Slots(Threads(2, -1, Unused), 0);
    ShapeOf(s, s', 0);
  }

  /** Core 1 creates a thread in the block just freed, and runs it. */
  lemma BlockIsReused(run: seq<State>) returns (run': seq<State>)
    requires Chain(run) && Shape(Last(run)) && |Last(run).mem.depth| == 3
    requires Last(run) == At(Threads(2, -1, Unused), 0, 2, [0, -1], [Fetch(-1), Boot], [Some(Context(2, 1)), None], None,
                             IDLE_LOG + [GONE], [2], Last(run).mem)
    ensures Chain(run') && run'[0] == run[0] && Shape(Last(run'))
    ensures |Last(run').mem.depth| == 4 && Last(run').mem.depth[2] == Last(run).mem.depth[2]
    ensures Last(run') == At(Threads(3, 1, Active), 0, 3, [0, 2], [Fetch(-1), Run], [Some(Context(2, 1)), Some(Context(3, 0))],
                             None, IDLE_LOG + [GONE, BORN], [2], Last(run').mem)
  {
    var s := Last(run);
    FirstFreeIsTwo(Threads(2, -1, Unused), 0);
    run' := Extend(run, CreateThread(1, 9));
    var m := Last(run').mem;
    assert Last(run') == At(Threads(3, -1, Active), 0, 3, [0, -1], [Fetch(-1), Boot], [Some(Context(2, 1)), None], None,
                            IDLE_LOG + [GONE, BORN], [2], m);
    ShapeOf(s, Last(run'), 1);
    run' := Picks(run', 1, 3, 0);
    run' := Loads(run', 1);
  }

  lemma SharedRun() returns (run: seq<State>)
    ensures Chain(run) && run[0] == Initial(3, 2) && Shape(Last(run))
    ensures |Last(run).mem.depth| == 4 && Last(run).mem.depth[2] == 20
    ensures Last(run) == At(Threads(3, 1, Active), 0, 3, [0, 2], [Fetch(-1), Run], [Some(Context(2, 1)), Some(Context(3, 0))],
                            None, IDLE_LOG + [GONE, BORN], [2], Last(run).mem)
  {
    run := ThreadRuns();
    run := ThreadDies(run);
    run := BlockIsReused(run);
  }

  /**
   There is a run at whose end core 0 still stands on the stack it freed, core 1 runs a new
   thread, and both stacks are the same block: the window between kfree() and the load
   is real as soon as there is a second core.
   */
  lemma WindowIsReal() returns (run: seq<State>)
    ensures IsRun(run, 3, 2)
    ensures var s := Last(run);
      && |s.pc| == |s.live| == 2 && s.pc[0] == Fetch(-1) && s.pc[1] == Run
      && BlockUnder(s, 0).Some? && BlockUnder(s, 0) == BlockUnder(s, 1)
      && Self(s, 0) in s.freed && Self(s, 1) !in s.freed
  {
    run := SharedRun();
  }

  /** The new thread's stack grows to 30 words. */
  lemma Outgrows(run: seq<State>) returns (run': seq<State>)
    requires Chain(run) && Shape(Last(run)) && |Last(run).mem.depth| == 4 && Last(run).mem.depth[2] == 20
    requires Last(run) == At(Threads(3, 1, Active), 0, 3, [0, 2], [Fetch(-1), Run], [Some(Context(2, 1)), Some(Context(3, 0))],
                             None, IDLE_LOG + [GONE, BORN], [2], Last(run).mem)
    ensures Chain(run') && run'[0] == run[0] && Shape(Last(run'))
    ensures var s := Last(run');
      && |s.pc| == |s.live| == 2 && s.pc == [Fetch(-1), Run] && s.table.current == [0, 2]
      && s.live[0] == Some(Context(2, 1)) && s.live[1].Some? && Self(s, 1) == 3
      && |s.log| == 4 && s.log[2].stack == s.log[3].stack && s.freed == [2]
      && |s.mem.depth| == 4 && s.mem.depth[2] == 20 && s.mem.depth[3] == 30
  {
    var s := Last(run);
    run' := Extend(run, Work(1, 30));
    ShapeOf(s, Last(run'), 1);
  }

  /**
   From there the new thread's stack grows past the depth at which core 0 stands, core 0
   pushes its registers, and a word of the running thread's stack is a dead thread's.
   */
  lemma DamageIsReal() returns (run: seq<State>)
    ensures IsRun(run, 3, 2)
    ensures var s := Last(run);
      && |s.pc| == |s.live| == 2 && |s.log| == 4 && s.pc[1] == Run && Self(s, 1) == 3 && 3 !in s.freed
      && 21 <= Depth(s, 3) && WrittenBy(s, 3, 21, 2) && 2 in s.freed
  {
    run := SharedRun();
    run := Outgrows(run);
    run := Extend(run, FetchRsp(0));
  }
}
