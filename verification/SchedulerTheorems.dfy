/**
 What the scheduler guarantees in every run, for any number of cores and slots
 and any interleaving of their steps.
 */
module SchedulerTheorems {
  import opened Common
  import opened SchedulerTable
  import opened SchedulerMachine
  import opened SchedulerInvariant
  import opened SchedulerSafety
  import opened SchedulerLedger

  /** The invariant holds in every state of every run. */
  lemma {:induction false} RunInvariant(run: seq<State>, n: nat, cores: nat, i: nat)
    requires cores <= n && 0 < n && IsRun(run, n, cores) && i < |run|
    ensures Core(run[i]) && Ledger(run[i])
  {
    if i == 0 {
      InitialCore(n, cores);
      InitialLedger(n, cores);
    } else {
      RunInvariant(run, n, cores, i - 1);
      assert StepAt(run, i - 1);
      var a :| Enabled(run[i - 1], a) && run[i] == Apply(run[i - 1], a);
      NextKeeps(run[i - 1], a);
      NextLedger(run[i - 1], a);
    }
  }

  /** No thread executes on two cores at once: it is current on one, and only one core stands on its stack as that thread. */
  lemma NoThreadOnTwoCores(run: seq<State>, n: nat, cores: nat, i: nat, c: nat, d: nat)
    requires cores <= n && 0 < n && IsRun(run, n, cores) && i < |run|
    ensures Shape(run[i])
    ensures c < |run[i].pc| && d < |run[i].pc| && c != d ==>
              && (run[i].table.current[c] >= 0 ==> run[i].table.current[c] != run[i].table.current[d])
              && (OnStack(run[i], c) && OnStack(run[i], d) ==>
                    run[i].live[c].value.owner != run[i].live[d].value.owner)
  {
    RunInvariant(run, n, cores, i);
    var s := run[i];
    if c < |s.pc| && d < |s.pc| && c != d {
      assert ApartOk(s, c, d);
      if s.table.current[c] >= 0 {
        assert ClaimOk(s, c, s.table.current[c]) && ClaimOk(s, d, s.table.current[c]);
      }
    }
  }

  /** The heap block core `c` stands on. */
  function BlockUnder(s: State, c: nat): Option<nat>
    requires c < |s.live|
  {
    if s.live[c].Some? && Self(s, c) < |s.log| then Some(s.log[Self(s, c)].stack) else None
  }

  /**
   Core `c` is on its way off the stack it stands on. At Fetch(-1) it has freed that stack and
   still has the call and the pushes of switch_context() ahead of it there; at Jump it has
   released its thread or made those pushes, and only the load is left.
   */
  predicate OffItsStack(s: State, c: nat)
    requires c < |s.pc|
  {
    s.pc[c].Jump? || s.pc[c] == Fetch(-1)
  }

  /** A core that stands on a stack already freed is between the kfree() and the load of its new stack pointer. */
  lemma OnFreedStack(s: State, c: nat)
    requires Core(s) && Ledger(s) && c < |s.pc| && s.live[c].Some? && Self(s, c) in s.freed
    ensures OffItsStack(s, c)
  {
    var b := Self(s, c);
    assert AtPc(s, c) && StackOk(s, b);
    assert !Pending(s, b) && s.pc[c] != Reap(b);
    assert !InSlot(s, b) && forall t | 0 <= t < |s.table.threads| && Occupies(s, t) :: s.table.threads[t].birth != b;
  }

  lemma SharedBlock(s: State, c: nat, d: nat)
    requires Core(s) && Ledger(s) && c < |s.pc| && d < |s.pc| && c != d
    requires BlockUnder(s, c).Some? && BlockUnder(s, c) == BlockUnder(s, d)
    ensures OffItsStack(s, c) || OffItsStack(s, d)
  {
    assert ApartOk(s, c, d) && BlockOk(s, Self(s, c), Self(s, d));
    if Self(s, c) in s.freed { OnFreedStack(s, c); }
    if Self(s, d) in s.freed { OnFreedStack(s, d); }
  }

  /**
   Two cores stand in one block of memory only while one of them is on its way off it: it
   has cleared its old thread's flag, or freed its dead thread's stack. What it still pushes
   there is the subject of SchedulerStacks.
   */
  lemma NoSharedStackMemory(run: seq<State>, n: nat, cores: nat, i: nat, c: nat, d: nat)
    requires cores <= n && 0 < n && IsRun(run, n, cores) && i < |run| && c != d
    ensures Shape(run[i])
    ensures c < |run[i].pc| && d < |run[i].pc| && BlockUnder(run[i], c).Some? && BlockUnder(run[i], c) == BlockUnder(run[i], d)
            ==> OffItsStack(run[i], c) || OffItsStack(run[i], d)
  {
    RunInvariant(run, n, cores, i);
    var s := run[i];
    if c < |s.pc| && d < |s.pc| && BlockUnder(s, c).Some? && BlockUnder(s, c) == BlockUnder(s, d) {
      SharedBlock(s, c, d);
    }
  }

  /**
   A core that loads a stack pointer gets the one its new thread last had, not a stale one, not a predecessor's;
   and any other core in that thread's stack memory is on its way off it.
   */
  lemma ResumesLatestContext(run: seq<State>, n: nat, cores: nat, i: nat, c: nat)
    requires cores <= n && 0 < n && IsRun(run, n, cores) && i < |run|
    requires Shape(run[i]) && Enabled(run[i], LoadRsp(c))
    ensures var s := run[i]; var s' := Apply(s, LoadRsp(c)); var slot := s.table.current[c];
      && 0 <= slot < |s.table.threads| && s.table.threads[slot].state.Active? && s.table.threads[slot].runningOn == c
      && s.table.threads[slot].birth < |s.log|
      && s'.live[c] == Some(Context(s.table.threads[slot].birth, s.log[s.table.threads[slot].birth].version))
      && forall d | 0 <= d < |s.pc| && d != c && BlockUnder(s, d) == BlockUnder(s', c) :: OffItsStack(s, d)
  {
    RunInvariant(run, n, cores, i);
    var s := run[i];
    var slot := s.table.current[c];
    assert AtPc(s, c) && ClaimOk(s, c, slot);
    var s' := Apply(s, LoadRsp(c));
    NextKeeps(s, LoadRsp(c));
    NextLedger(s, LoadRsp(c));
    forall d | 0 <= d < |s.pc| && d != c && BlockUnder(s, d) == BlockUnder(s', c) ensures OffItsStack(s, d) {
      SharedBlock(s', c, d);
    }
  }

  // ---- What a stored stack pointer can miss ----

  function Version(s: State, b: nat): nat { if b < |s.log| then s.log[b].version else 0 }

  /** The stack pointer in slot `t` is not ahead of the thread it belongs to. */
  predicate LagsAt(s: State, t: nat)
    requires t < |s.table.threads|
  {
    s.table.threads[t].rsp.version <= Version(s, s.table.threads[t].rsp.owner)
  }

  predicate Lags(s: State) { forall t | 0 <= t < |s.table.threads| :: LagsAt(s, t) }

  /** Slot `t` keeps its stack pointer, and no thread goes back. */
  predicate Onward(s: State, s': State, t: nat)
    requires t < |s.table.threads| && t < |s'.table.threads|
  {
    var x := s.table.threads[t].rsp;
    s'.table.threads[t].rsp == x && Version(s, x.owner) <= Version(s', x.owner)
  }

  lemma LagsOn(s: State, s': State)
    requires Lags(s) && |s'.table.threads| == |s.table.threads|
    requires forall t | 0 <= t < |s.table.threads| :: Onward(s, s', t) || LagsAt(s', t)
    ensures Lags(s')
  {
    forall t | 0 <= t < |s'.table.threads| ensures LagsAt(s', t) {
      assert LagsAt(s, t) && (Onward(s, s', t) || LagsAt(s', t));
    }
  }

  lemma CreateOnward(s: State, a: Step, t: nat)
    requires Core(s) && Enabled(s, a) && (a.CreateThread? || a.SpawnAndWait?)
    requires t < |s.table.threads| == |Apply(s, a).table.threads|
    ensures Onward(s, Apply(s, a), t) || LagsAt(Apply(s, a), t)
  {
    FirstUnusedIsFirst(s.table.threads, 0);
  }

  lemma ScanOnward(s: State, c: nat, t: nat)
    requires Shape(s) && Enabled(s, ScanOne(c)) && t < |s.table.threads| == |Apply(s, ScanOne(c)).table.threads|
    ensures Onward(s, Apply(s, ScanOne(c)), t)
  {
  }

  lemma SaveOnward(s: State, c: nat, t: nat)
    requires Core(s) && Enabled(s, SaveRsp(c)) && t < |s.table.threads| == |Apply(s, SaveRsp(c)).table.threads|
    ensures Onward(s, Apply(s, SaveRsp(c)), t) || LagsAt(Apply(s, SaveRsp(c)), t)
  {
    assert AtPc(s, c);
  }

  lemma StepOnward(s: State, a: Step, t: nat)
    requires Core(s) && Enabled(s, a) && t < |s.table.threads| == |Apply(s, a).table.threads|
    ensures Onward(s, Apply(s, a), t) || LagsAt(Apply(s, a), t)
  {
    match a
    case CreateThread(_, _) => CreateOnward(s, a, t);
    case SpawnAndWait(_, _) => CreateOnward(s, a, t);
    case ScanOne(c) => ScanOnward(s, c, t);
    case SaveRsp(c) => SaveOnward(s, c, t);
    case _ => assert Onward(s, Apply(s, a), t);
  }

  lemma NextLags(s: State, a: Step)
    requires Core(s) && Enabled(s, a) && Lags(s)
    ensures Lags(Apply(s, a))
  {
    StepSize(s, a);
    forall t | 0 <= t < |s.table.threads| ensures Onward(s, Apply(s, a), t) || LagsAt(Apply(s, a), t) {
      StepOnward(s, a, t);
    }
    LagsOn(s, Apply(s, a));
  }

  lemma LagsNext(s: State, s': State)
    requires Core(s) && Next(s, s') && Lags(s)
    ensures Lags(s')
  {
    var a :| Enabled(s, a) && s' == Apply(s, a);
    NextLags(s, a);
  }

  lemma {:induction false} RunLags(run: seq<State>, n: nat, cores: nat, i: nat)
    requires cores <= n && 0 < n && IsRun(run, n, cores) && i < |run|
    ensures Lags(run[i])
  {
    if i > 0 {
      RunLags(run, n, cores, i - 1);
      RunInvariant(run, n, cores, i - 1);
      assert StepAt(run, i - 1);
      LagsNext(run[i - 1], run[i]);
    }
  }

  /**
   Whatever a running thread does makes every stack pointer stored for it out of date, so that to resume it from any of
   them would be to resume it from the past.
   */
  lemma WorkIsNew(run: seq<State>, n: nat, cores: nat, i: nat, c: nat, depth: nat)
    requires cores <= n && 0 < n && IsRun(run, n, cores) && i < |run|
    requires Shape(run[i]) && Enabled(run[i], Work(c, depth))
    ensures var s' := Apply(run[i], Work(c, depth));
      && s'.live[c].Some? && s'.live[c].value.owner == Self(run[i], c)
      && forall t | 0 <= t < |s'.table.threads| :: s'.table.threads[t].rsp != s'.live[c].value
  {
    RunLags(run, n, cores, i);
    var s, s' := run[i], Apply(run[i], Work(c, depth));
    forall t | 0 <= t < |s'.table.threads| ensures s'.table.threads[t].rsp != s'.live[c].value {
      assert LagsAt(s, t);
    }
  }

  /** The stack pointer stored by switch_context_release goes into the slot of the very thread it belongs to. */
  lemma SavesOwnContext(run: seq<State>, n: nat, cores: nat, i: nat, c: nat)
    requires cores <= n && 0 < n && IsRun(run, n, cores) && i < |run|
    requires Shape(run[i]) && Enabled(run[i], SaveRsp(c))
    ensures var s := run[i]; var prev := s.pc[c].prev;
      && s.table.threads[prev].state.Active? && s.table.threads[prev].runningOn == c
      && s.live[c].value.owner == s.table.threads[prev].birth
  {
    RunInvariant(run, n, cores, i);
    assert AtPc(run[i], c) && ClaimOk(run[i], c, run[i].pc[c].prev);
  }

  /** `active_count` counts the occupied slots, and every zombie is the current thread of exactly one core. */
  lemma CountAndZombies(run: seq<State>, n: nat, cores: nat, i: nat, t: nat)
    requires cores <= n && 0 < n && IsRun(run, n, cores) && i < |run|
    ensures Shape(run[i]) && run[i].table.activeCount == Occupied(run[i].table.threads)
    ensures t < |run[i].table.threads| && run[i].table.threads[t].state.Zombie? ==>
              exists c :: 0 <= c < |run[i].pc| && run[i].table.current[c] == t &&
                          forall d | 0 <= d < |run[i].pc| && run[i].table.current[d] == t :: d == c
  {
    RunInvariant(run, n, cores, i);
    var s := run[i];
    if t < |s.table.threads| && s.table.threads[t].state.Zombie? {
      assert ZombieOk(s, t);
      var c := s.table.threads[t].runningOn;
      forall d | 0 <= d < |s.pc| && s.table.current[d] == t ensures d == c {
        assert ClaimOk(s, d, t);
      }
    }
  }

  /**
   schedule() on a dead thread always switches away: it takes the lock, and its scan ends in a switch to another
   live thread nobody runs, at the latest to the core's own idle thread.
   */
  lemma DeadSwitchesAway(run: seq<State>, n: nat, cores: nat, i: nat, c: nat)
    requires cores <= n && 0 < n && IsRun(run, n, cores) && i < |run|
    requires Shape(run[i]) && c < |run[i].pc| && PrevIsZombie(run[i].table, c)
    ensures var s := run[i]; var dead := s.table.current[c];
      && (s.pc[c].Dead? || s.pc[c].Scan?)
      && (Enabled(s, EnterSchedule(c)) ==> Apply(s, EnterSchedule(c)).pc[c].Scan?)
      && (Enabled(s, ScanOne(c)) ==>
            var s' := Apply(s, ScanOne(c));
            || (s'.pc[c] == s.pc[c].(round := s.pc[c].round + 1) && s.pc[c].round <= |s.table.threads|)
            || (&& s'.pc[c] == Reap(s.table.threads[dead].birth) && s'.table.threads[dead].state.Unused?
                && s'.table.current[c] != dead && s.table.threads[s'.table.current[c]].state.Active?
                && s.table.threads[s'.table.current[c]].runningOn == -1))
  {
    RunInvariant(run, n, cores, i);
    var s := run[i];
    assert ZombieOk(s, s.table.current[c]) && ClaimOk(s, c, s.table.current[c]);
    if s.pc[c].Scan? {
      IdleIsFree(s, c);
      var k := s.pc[c].round;
      if k <= |s.table.threads| { assert FlagOk(s, ScanSlot(s.table.current[c], k, |s.table.threads|)); }
    }
  }

  /** Each stack is in exactly one place: in its thread's slot, with the one core about to free it, or freed, once. */
  lemma StacksFreedOnce(run: seq<State>, n: nat, cores: nat, i: nat, b: nat)
    requires cores <= n && 0 < n && IsRun(run, n, cores) && i < |run| && b < |run[i].log|
    ensures var s := run[i];
      && (InSlot(s, b) || Pending(s, b) || b in s.freed)
      && !(InSlot(s, b) && Pending(s, b)) && !(InSlot(s, b) && b in s.freed) && !(Pending(s, b) && b in s.freed)
      && (forall j, k | 0 <= j < |s.freed| && 0 <= k < |s.freed| && s.freed[j] == s.freed[k] :: j == k)
      && (forall c, d | 0 <= c < |s.pc| && 0 <= d < |s.pc| && s.pc[c] == Reap(b) && s.pc[d] == Reap(b) :: c == d)
  {
    RunInvariant(run, n, cores, i);
    var s := run[i];
    assert StackOk(s, b);
    if Pending(s, b) {
      var c :| 0 <= c < |s.pc| && s.pc[c] == Reap(b);
      assert AtPc(s, c);
    }
    forall c, d | 0 <= c < |s.pc| && 0 <= d < |s.pc| && s.pc[c] == Reap(b) && s.pc[d] == Reap(b) ensures c == d {
      assert AtPc(s, c) && AtPc(s, d) && ApartOk(s, c, d);
    }
  }

  /**
   What process_spawn_args_and_wait() returned is the code its own child passed, as a signed 32-bit number: the one in
   that range that differs from the code by a multiple of 2^32. The code is the only value ever stored at the waiter's
   `exit_code`, and the child is the only thread that ever stored there.
   */
  lemma WaitReturnsChildCode(run: seq<State>, n: nat, cores: nat, i: nat, f: nat)
    requires cores <= n && 0 < n && IsRun(run, n, cores) && i < |run| && f < |run[i].frames|
    ensures var s := run[i]; var fr := s.frames[f];
      fr.returned.Some? ==>
        && fr.child < |s.log| && |s.log[fr.child].passed| == 1
        && fr.stores == [Delivery(fr.child, s.log[fr.child].passed[0])]
        && var code := s.log[fr.child].passed[0];
        && -2147483648 <= fr.returned.value <= 2147483647 && (fr.returned.value - code) % 4294967296 == 0
        && (-2147483648 <= code <= 2147483647 ==> fr.returned.value == code)
  {
    RunInvariant(run, n, cores, i);
    assert FrameLedger(run[i], f);
    if run[i].frames[f].returned.Some? {
      SameModulo(run[i].log[run[i].frames[f].child].passed[0] + 0x8000_0000, 0x1_0000_0000);
    }
  }

  lemma SameModulo(x: int, m: int)
    requires 0 < m
    ensures (x % m - x) % m == 0
  {
    var q := x / m;
    assert x % m - x == m * -q;
    MultipleModulo(m, -q);
  }

  lemma MultipleModulo(m: int, q: int)
    requires 0 < m
    ensures (m * q) % m == 0
  {
    var r := (m * q) % m;
    var k := (m * q) / m;
    assert m * q == m * k + r;
    assert r == m * (q - k);
    assert (q - k >= 1 ==> m * (q - k) >= m) && (q - k <= -1 ==> m * (q - k) <= -m);
  }

  /**
   A wait ends at the first test that finds the slot not ACTIVE, with the child's code, and goes on, changing nothing,
   as long as the slot is ACTIVE.
   */
  lemma PollReturns(run: seq<State>, n: nat, cores: nat, i: nat, c: nat)
    requires cores <= n && 0 < n && IsRun(run, n, cores) && i < |run|
    requires Shape(run[i]) && Enabled(run[i], Poll(c))
    ensures var s := run[i]; var s' := Apply(s, Poll(c)); var me := Self(s, c); var w := s.log[me].waiting.value;
      && s.frames[w.frame].owner == me && s.frames[w.frame].child == w.child && s.frames[w.frame].returned.None?
      && (if s.table.threads[w.slot].state == Active then s' == s
          else
            && s'.log[me].waiting.None? && w.child < |s.log| && |s.log[w.child].passed| == 1
            && s'.frames[w.frame].returned.Some?
            && (s'.frames[w.frame].returned.value - s.log[w.child].passed[0]) % 4294967296 == 0)
  {
    RunInvariant(run, n, cores, i);
    var s := run[i];
    var me := Self(s, c);
    RunnerLedger(s, c);
    assert ThreadLedger(s, me) && WaitsAt(s, me, s.log[me].waiting.value.frame);
    assert FrameLedger(s, s.log[me].waiting.value.frame);
    if s.table.threads[s.log[me].waiting.value.slot].state != Active {
      ChildHasReported(s, c);
      SameModulo(s.log[s.log[me].waiting.value.child].passed[0] + 0x8000_0000, 0x1_0000_0000);
    }
  }

  /**
   No deadlock: whoever holds the lock is inside a scan, which can go on and frees the lock after at most one round more
   than there are slots; and every other core can take a step, unless it is about to take the lock that this core holds.
   */
  lemma NobodyIsStuck(run: seq<State>, n: nat, cores: nat, i: nat, c: nat)
    requires cores <= n && 0 < n && IsRun(run, n, cores) && i < |run| && c < cores
    ensures Shape(run[i]) && |run[i].pc| == cores
    ensures run[i].lock.Some? ==>
              var d := run[i].lock.value;
              && Enabled(run[i], ScanOne(d)) && 1 <= run[i].pc[d].round <= n + 1
              && var s' := Apply(run[i], ScanOne(d));
              s'.lock.None? || s'.pc[d] == run[i].pc[d].(round := run[i].pc[d].round + 1)
    ensures CanGoOn(run[i], c)
  {
    RunInvariant(run, n, cores, i);
    RunSize(run, n, cores, i);
    CoreCanGoOn(run[i], c);
  }

  /** Whatever core `c` is about to do, it can do as soon as the lock is free, if it needs the lock. */
  ghost predicate CanGoOn(s: State, c: nat)
    requires Shape(s) && c < |s.pc|
  {
    match s.pc[c]
    case Boot => s.lock.None? ==> Enabled(s, EnterSchedule(c)) && Enabled(s, EnterStart(c))
    case Run =>
      && s.table.current[c] >= 0
      && (forall d: nat :: Enabled(s, Work(c, d)))
      && (s.lock.None? ==> Enabled(s, EnterSchedule(c)))
      && (if Waiting(s, c) then Enabled(s, Poll(c))
          else s.table.threads[s.table.current[c]].isIdle || forall code :: Enabled(s, Exit(c, code)))
    case Exiting => s.lock.None? ==> Enabled(s, MarkZombie(c))
    case Dead => s.lock.None? ==> Enabled(s, EnterSchedule(c))
    case Scan(_, _) => Enabled(s, ScanOne(c))
    case Reap(_) => Enabled(s, FreeStack(c))
    case Fetch(_) => Enabled(s, FetchRsp(c))
    case Save(_, _) => Enabled(s, SaveRsp(c))
    case Release(_, _) => Enabled(s, ClearFlag(c))
    case Jump(_) => Enabled(s, LoadRsp(c))
  }

  lemma RunningCanGoOn(s: State, c: nat)
    requires Core(s) && Ledger(s) && c < |s.pc| && s.pc[c] == Run
    ensures CanGoOn(s, c)
  {
    assert AtPc(s, c);
    if Waiting(s, c) {
      assert ThreadLedger(s, Self(s, c));
    }
  }

  lemma CoreCanGoOn(s: State, c: nat)
    requires Core(s) && Ledger(s) && c < |s.pc|
    ensures CanGoOn(s, c)
  {
    assert AtPc(s, c);
    if s.pc[c] == Run {
      RunningCanGoOn(s, c);
    } else if s.pc[c] == Boot {
      assert IdleOk(s, c);
      OccupiedOne(s.table.threads, s.table.idle[c]);
    }
  }

  /**
   A core that runs, on its boot stack or as a thread, can create a thread as soon as the lock is free and a slot is
   unused, in any block none of whose stacks is still held; and a thread that is not waiting can create one and wait for it.
   */
  lemma CreationGoesOn(run: seq<State>, n: nat, cores: nat, i: nat, c: nat, stack: nat, t: nat)
    requires cores <= n && 0 < n && IsRun(run, n, cores) && i < |run| && c < cores && t < n
    ensures Shape(run[i]) && |run[i].pc| == cores && |run[i].table.threads| == n
    ensures var s := run[i];
      s.lock.None? && s.table.threads[t].state == Unused
      && (forall b | 0 <= b < |s.log| && s.log[b].stack == stack :: b in s.freed) ==>
        && (s.pc[c] == Boot || s.pc[c] == Run ==> Enabled(s, CreateThread(c, stack)))
        && (s.pc[c] == Run && !Waiting(s, c) ==> Enabled(s, SpawnAndWait(c, stack)))
  {
    RunInvariant(run, n, cores, i);
    RunSize(run, n, cores, i);
    FirstUnusedIsFirst(run[i].table.threads, 0);
    assert AtPc(run[i], c);
  }

  lemma OccupiedOne(threads: seq<Thread>, a: nat)
    requires a < |threads| && !threads[a].state.Unused?
    ensures 1 <= Occupied(threads)
  {
    OccupiedUpdate(threads, a, threads[a].(state := Unused));
  }

  /**
   Whenever a thread stores its exit code, the address in its slot is the `exit_code` of a live thread that is still
   inside the wait for exactly this thread, and nothing was stored there before.
   */
  lemma CodeIsStoredInLiveFrame(run: seq<State>, n: nat, cores: nat, i: nat, c: nat, code: int)
    requires cores <= n && 0 < n && IsRun(run, n, cores) && i < |run|
    requires Shape(run[i]) && Enabled(run[i], Exit(c, code))
    ensures var s := run[i]; var me := Self(s, c); var out := s.table.threads[s.table.current[c]].exitOut;
      if out.None? then Apply(s, Exit(c, code)).frames == s.frames
      else
        && out.value < |s.frames|
        && var fr := s.frames[out.value];
        && fr.child == me && fr.stores == [] && fr.returned.None?
        && WaitsAt(s, fr.owner, out.value) && InSlot(s, fr.owner) && fr.owner !in s.freed
        && Apply(s, Exit(c, code)).frames == s.frames[out.value := fr.(stores := [Delivery(me, code)])]
  {
    RunInvariant(run, n, cores, i);
    var s := run[i];
    var me, cur := Self(s, c), s.table.current[c];
    RunnerLedger(s, c);
    assert SlotLedger(s, cur) && ThreadLedger(s, me);
    if s.table.threads[cur].exitOut.Some? {
      var f := s.table.threads[cur].exitOut.value;
      assert FrameLedger(s, f) && Delivered(me, [], s.frames[f].stores) && s.frames[f].stores == [];
      assert [] + [Delivery(me, code)] == [Delivery(me, code)];
      assert ThreadLedger(s, s.frames[f].owner) && StackOk(s, s.frames[f].owner);
    }
  }

  lemma StepKeepsFrame(s: State, a: Step, f: nat)
    requires Core(s) && Ledger(s) && Enabled(s, a) && f < |s.frames| && s.frames[f].returned.Some?
    ensures f < |Apply(s, a).frames| && Apply(s, a).frames[f] == s.frames[f]
  {
    assert FrameLedger(s, f);
    if a.Exit? {
      RunnerLedger(s, a.c);
      assert SlotLedger(s, s.table.current[a.c]);
    } else if a.Poll? && Apply(s, a) != s {
      ChildHasReported(s, a.c);
    }
  }

  /** After the wait has returned, its frame is never written again, by anybody. */
  lemma {:induction false} NeverWrittenAfterReturn(run: seq<State>, n: nat, cores: nat, i: nat, j: nat, f: nat)
    requires cores <= n && 0 < n && IsRun(run, n, cores) && i <= j < |run|
    requires f < |run[i].frames| && run[i].frames[f].returned.Some?
    ensures f < |run[j].frames| && run[j].frames[f] == run[i].frames[f]
    decreases j
  {
    if i < j {
      NeverWrittenAfterReturn(run, n, cores, i, j - 1, f);
      RunInvariant(run, n, cores, j - 1);
      assert StepAt(run, j - 1);
      var a :| Enabled(run[j - 1], a) && run[j] == Apply(run[j - 1], a);
      StepKeepsFrame(run[j - 1], a, f);
    }
  }

  // ---- Bounded waiting ----

  /** Core `c`, not in the middle of a scan that has already passed slot `t`, shares the table with the ready thread `t`. */
  predicate Ahead(s: State, c: nat, t: nat)
    requires Shape(s) && c < |s.pc| && t < |s.table.threads|
  {
    && s.table.current[c] >= 0
    && Ready(s.table.threads[t])
    && (s.pc[c].Scan? ==> !s.pc[c].starting && s.pc[c].round <= Distance(s.table.current[c], t, |s.table.threads|))
  }

  predicate EndsScan(s: State, s': State, c: nat) {
    c < |s.pc| && c < |s'.pc| && s.pc[c].Scan? && !s'.pc[c].Scan?
  }

  lemma StepSize(s: State, a: Step)
    requires Shape(s) && Enabled(s, a)
    ensures var s' := Apply(s, a); |s'.table.threads| == |s.table.threads| && |s'.pc| == |s.pc|
  {
    FirstUnusedIsFirst(s.table.threads, 0);
  }

  /** With another thread ready, a running core's schedule() never takes its early return. */
  lemma NoEarlyReturn(s: State, c: nat, t: nat)
    requires Core(s) && c < |s.pc| && t < |s.table.threads| && s.table.current[c] >= 0 && Enabled(s, EnterSchedule(c))
    requires s.table.threads[t].state == Active && s.table.threads[t].runningOn < 0
    ensures Apply(s, EnterSchedule(c)).pc[c] == Scan(1, false)
  {
    var cur := s.table.current[c];
    assert ClaimOk(s, c, cur) && FlagOk(s, cur);
    if cur < t { OccupiedTwo(s.table.threads, cur, t); } else { OccupiedTwo(s.table.threads, t, cur); }
  }

  lemma CoreScanCloser(s: State, c: nat, t: nat)
    requires Core(s) && c < |s.pc| && t < |s.table.threads| && Ahead(s, c, t) && Enabled(s, ScanOne(c))
    ensures var s' := Apply(s, ScanOne(c));
      Shape(s') && |s'.pc| == |s.pc| && |s'.table.threads| == |s.table.threads| &&
      (Ready(s'.table.threads[t]) ==>
        && Ahead(s', c, t)
        && Distance(s'.table.current[c], t, |s.table.threads|) + (if EndsScan(s, s', c) then 1 else 0)
           <= Distance(s.table.current[c], t, |s.table.threads|))
  {
    ScanKeeps(s, c);
    var n := |s.table.threads|;
    var cur := s.table.current[c];
    var k := s.pc[c].round;
    DistanceIsRound(cur, t, n);
    RoundIsDistance(cur, k, n);
    var slot := ScanSlot(cur, k, n);
    if Ready(s.table.threads[slot]) {
      assert Distance(cur, slot, n) == k;
      if slot != t {
        assert k < Distance(cur, t, n);
        assert Distance(slot, t, n) < Distance(cur, t, n);
      }
    }
  }

  /** Any other step leaves core `c`'s place in the round robin alone. */
  lemma OtherStepSamePlace(s: State, a: Step, c: nat, t: nat)
    requires Core(s) && c < |s.pc| && t < |s.table.threads| && Ahead(s, c, t) && Enabled(s, a)
    requires a != ScanOne(c)
    ensures var s' := Apply(s, a);
      Shape(s') && |s'.pc| == |s.pc| && |s'.table.threads| == |s.table.threads| &&
      s'.table.current[c] == s.table.current[c] && !EndsScan(s, s', c) &&
      (Ready(s'.table.threads[t]) ==> Ahead(s', c, t))
  {
    NextKeeps(s, a);
    StepSize(s, a);
    if a.c == c {
      assert AtPc(s, c);
    } else {
      SamePlace(s, a, c);
    }
  }

  lemma SamePlace(s: State, a: Step, c: nat)
    requires Shape(s) && Enabled(s, a) && c < |s.pc| && a.c != c
    ensures |Apply(s, a).pc| == |s.pc| && Apply(s, a).pc[c] == s.pc[c]
    ensures |Apply(s, a).table.current| == |s.pc| && Apply(s, a).table.current[c] == s.table.current[c]
  {
    FirstUnusedIsFirst(s.table.threads, 0);
  }

  /** How many schedule() calls core `c` has finished between two points of a run. */
  function Finished(run: seq<State>, c: nat, lo: nat, hi: nat): nat
    requires lo <= hi < |run|
    decreases hi
  {
    if lo == hi then 0
    else Finished(run, c, lo, hi - 1) + (if EndsScan(run[hi - 1], run[hi], c) then 1 else 0)
  }

  lemma CloserByOne(s: State, s': State, c: nat, t: nat)
    requires Core(s) && Next(s, s') && c < |s.pc| && t < |s.table.threads| == |s'.table.threads| && Ahead(s, c, t)
    requires Ready(s'.table.threads[t])
    ensures Shape(s') && c < |s'.pc| && Ahead(s', c, t)
    ensures Distance(s'.table.current[c], t, |s.table.threads|) + (if EndsScan(s, s', c) then 1 else 0)
            <= Distance(s.table.current[c], t, |s.table.threads|)
  {
    var a :| Enabled(s, a) && s' == Apply(s, a);
    if a == ScanOne(c) {
      CoreScanCloser(s, c, t);
    } else {
      OtherStepSamePlace(s, a, c, t);
    }
  }

  /**
   Bounded waiting: while the thread in slot `t` is ACTIVE, on no core and not idle, every schedule() call a core finishes brings its current thread
   strictly closer to `t` in the cyclic order of the table, so a core finishes fewer calls than there are slots
   before it would have to take `t`.
   */
  lemma {:induction false} BoundedWaiting(run: seq<State>, n: nat, cores: nat, c: nat, t: nat, lo: nat, hi: nat)
    requires cores <= n && 0 < n && IsRun(run, n, cores) && lo <= hi < |run| && c < cores && t < n
    requires forall i | lo <= i <= hi ::
               && t < |run[i].table.threads| && run[i].table.threads[t].state == Active
               && run[i].table.threads[t].runningOn < 0 && run[i].table.threads[t].isIdle == false
    requires Shape(run[lo]) && |run[lo].pc| == cores && |run[lo].table.threads| == n
    requires !run[lo].pc[c].Scan? && run[lo].table.current[c] >= 0
    ensures Shape(run[hi]) && |run[hi].pc| == cores && |run[hi].table.threads| == n && Ahead(run[hi], c, t)
    ensures run[hi].table.current[c] >= 0
    ensures Distance(run[hi].table.current[c], t, n) + Finished(run, c, lo, hi) <= Distance(run[lo].table.current[c], t, n)
    ensures Finished(run, c, lo, hi) < n
    decreases hi
  {
    if lo < hi {
      BoundedWaiting(run, n, cores, c, t, lo, hi - 1);
      RunCloser(run, n, cores, c, t, hi);
    }
  }

  lemma RunCloser(run: seq<State>, n: nat, cores: nat, c: nat, t: nat, i: nat)
    requires cores <= n && 0 < n && IsRun(run, n, cores) && 0 < i < |run| && c < cores && t < n
    requires Shape(run[i - 1]) && |run[i - 1].pc| == cores && |run[i - 1].table.threads| == n && Ahead(run[i - 1], c, t)
    requires t < |run[i].table.threads| && Ready(run[i].table.threads[t])
    ensures Shape(run[i]) && |run[i].pc| == cores && |run[i].table.threads| == n && Ahead(run[i], c, t)
    ensures Distance(run[i].table.current[c], t, n) + (if EndsScan(run[i - 1], run[i], c) then 1 else 0)
            <= Distance(run[i - 1].table.current[c], t, n)
  {
    RunSize(run, n, cores, i);
    RunInvariant(run, n, cores, i - 1);
    assert StepAt(run, i - 1);
    CloserByOne(run[i - 1], run[i], c, t);
  }

  lemma {:induction false} RunSize(run: seq<State>, n: nat, cores: nat, i: nat)
    requires cores <= n && 0 < n && IsRun(run, n, cores) && i < |run|
    ensures |run[i].table.threads| == n && |run[i].pc| == cores
  {
    if i > 0 {
      RunSize(run, n, cores, i - 1);
      assert StepAt(run, i - 1);
      var a :| Enabled(run[i - 1], a) && run[i] == Apply(run[i - 1], a);
      StepSize(run[i - 1], a);
    }
  }

  // ---------------------------------------------------------------- a call nobody interferes with

  /** The rounds of a scan on core `c` taken one after another, up to the end of the critical section. */
  function FinishScan(s: State, c: nat): State
    requires Shape(s) && c < |s.pc| && s.pc[c].Scan?
    decreases |s.table.threads| + 1 - s.pc[c].round
  {
    var s' := DoScan(s, c);
    if s'.pc[c].Scan? then
      ScanOn(s, c);
      FinishScan(s', c)
    else s'
  }

  lemma ScanOn(s: State, c: nat)
    requires Shape(s) && c < |s.pc| && s.pc[c].Scan? && DoScan(s, c).pc[c].Scan?
    ensures var s' := DoScan(s, c);
            Shape(s') && s'.table == s.table && s'.pc[c] == s.pc[c].(round := s.pc[c].round + 1)
            && s.pc[c].round <= |s.table.threads|
  {
    var s' := DoScan(s, c);
    assert s.pc[c].round <= |s.table.threads|;
    forall d | 0 <= d < |s'.pc| ensures PcInRange(s', s'.pc[d]) {
      assert PcInRange(s, s.pc[d]);
    }
  }

  /** The table after core `c` settled on `next`; a negative slot leaves it alone. */
  function Settled(t: Table, c: nat, next: int): Table
    requires WellSized(t) && c < |t.current| && next < |t.threads|
  {
    if next < 0 then t else Commit(t, c, next)
  }

  lemma {:induction false} ScanAlone(s: State, c: nat)
    requires Shape(s) && c < |s.pc| && s.pc[c].Scan? && !s.pc[c].starting
    ensures var t := s.table;
            var next := NextReady(t.threads, t.current[c], s.pc[c].round);
            var chosen := if next < 0 && PrevIsZombie(t, c) then t.idle[c] else next;
            chosen < |t.threads| && FinishScan(s, c).table == Settled(t, c, chosen)
    decreases |s.table.threads| + 1 - s.pc[c].round
  {
    NextReadyIsNearest(s.table.threads, s.table.current[c], s.pc[c].round);
    if DoScan(s, c).pc[c].Scan? {
      ScanOn(s, c);
      ScanAlone(DoScan(s, c), c);
    }
  }

  /**
   When no other core takes a step in between, the machine's critical section is the
   atomic one that Scheduler.Schedule implements: same decision, same table.
   */
  lemma SoloSchedule(s: State, c: nat)
    requires Shape(s) && Enabled(s, EnterSchedule(c))
    ensures var s1 := Apply(s, EnterSchedule(c));
            && Shape(s1) && Decision(s.table, c) < |s.table.threads|
            && (if s1.pc[c].Scan? then FinishScan(s1, c).table else s1.table)
               == Settled(s.table, c, Decision(s.table, c))
  {
    var s1 := Apply(s, EnterSchedule(c));
    forall d | 0 <= d < |s1.pc| ensures PcInRange(s1, s1.pc[d]) {
      assert PcInRange(s, s.pc[d]);
    }
    if s1.pc[c].Scan? {
      ScanAlone(s1, c);
    }
  }
}
