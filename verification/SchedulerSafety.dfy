module SchedulerSafety {
  import opened Common
  import opened SchedulerTable
  import opened SchedulerMachine
  import opened SchedulerInvariant

  // ---- What a step of core c leaves alone ----

  /** Slot `t` belongs to some core other than `c`. */
  predicate Foreign(s: State, c: nat, t: nat)
    requires Shape(s) && t < |s.table.threads|
  {
    0 <= s.table.threads[t].runningOn != c
  }

  predicate SlotKept(s: State, s': State, t: nat)
    requires Shape(s) && Shape(s') && |s'.table.threads| == |s.table.threads| && t < |s.table.threads|
    requires |s.log| <= |s'.log|
  {
    && s'.table.threads[t] == s.table.threads[t]
    && (s.table.threads[t].birth < |s.log| ==>
          s'.log[s.table.threads[t].birth].version == s.log[s.table.threads[t].birth].version)
  }

  /** From `s` to `s'`, core `c` touches no other core, no slot another core answers for, and puts no dead thread back. */
  predicate StepOf(s: State, s': State, c: nat)
    requires Shape(s) && Shape(s') && c < |s.pc|
  {
    && |s'.pc| == |s.pc| && |s'.table.threads| == |s.table.threads| && |s.log| <= |s'.log|
    && s'.table.idle == s.table.idle
    && (forall d | 0 <= d < |s.pc| && d != c ::
          s'.pc[d] == s.pc[d] && s'.live[d] == s.live[d] && s'.table.current[d] == s.table.current[d])
    && (forall t | 0 <= t < |s.table.threads| && Foreign(s, c, t) :: SlotKept(s, s', t))
    && (forall t | 0 <= t < |s.table.threads| && Occupies(s', t) ::
          s'.table.threads[t].birth >= |s.log| ||
          (Occupies(s, t) && s'.table.threads[t].birth == s.table.threads[t].birth))
    && (s'.lock == s.lock || s.lock.None? || s.lock == Some(c))
    && (s'.lock.Some? ==> s'.pc[s'.lock.value].Scan?)
  }

  /** What holds at core `d`'s program point survives a step that leaves `d` and its slots alone. */
  lemma PointKept(s: State, s': State, d: nat)
    requires Core(s) && Shape(s') && Births(s') && d < |s.pc| == |s'.pc|
    requires |s'.table.threads| == |s.table.threads| && |s.log| <= |s'.log|
    requires s'.pc[d] == s.pc[d] && s'.live[d] == s.live[d] && s'.table.current[d] == s.table.current[d]
    requires s.table.current[d] >= 0 ==> SlotKept(s, s', s.table.current[d])
    requires Leaving(s.pc[d]) >= 0 ==> SlotKept(s, s', Leaving(s.pc[d]))
    requires forall t | 0 <= t < |s.table.threads| && Occupies(s', t) ::
               s'.table.threads[t].birth >= |s.log| ||
               (Occupies(s, t) && s'.table.threads[t].birth == s.table.threads[t].birth)
    requires s.lock == Some(d) ==> s'.lock == Some(d)
    ensures AtPc(s', d)
  {
    assert AtPc(s, d);
  }

  lemma OtherKept(s: State, s': State, c: nat, d: nat)
    requires Core(s) && Shape(s') && Births(s') && c < |s.pc| && StepOf(s, s', c)
    requires d < |s.pc| && d != c
    ensures AtPc(s', d)
  {
    assert AtPc(s, d);
    var cur := s.table.current[d];
    if cur >= 0 {
      assert ClaimOk(s, d, cur) && Foreign(s, c, cur) && SlotKept(s, s', cur);
    }
    var left := Leaving(s.pc[d]);
    if left >= 0 {
      assert ClaimOk(s, d, left) && Foreign(s, c, left) && SlotKept(s, s', left);
    }
    PointKept(s, s', d);
  }

  lemma ForeignSlotKept(s: State, s': State, c: nat, t: nat)
    requires Core(s) && Shape(s') && Births(s') && c < |s.pc| && StepOf(s, s', c)
    requires t < |s.table.threads| && Foreign(s, c, t)
    ensures FlagOk(s', t) && ResumeOk(s', t) && ZombieOk(s', t)
  {
    assert FlagOk(s, t) && ResumeOk(s, t) && ZombieOk(s, t) && SlotKept(s, s', t);
  }

  /** What core `c` still has to answer for after its own step. */
  predicate LocalDuty(s: State, s': State, c: nat)
    requires Shape(s) && Shape(s') && Births(s') && c < |s.pc| && StepOf(s, s', c)
  {
    && AtPc(s', c)
    && (forall t | 0 <= t < |s.table.threads| && !Foreign(s, c, t) ::
          FlagOk(s', t) && ResumeOk(s', t) && ZombieOk(s', t))
    && (forall t | 0 <= t < |s.table.threads| :: ClaimOk(s', c, t))
    && (forall d | 0 <= d < |s.pc| :: IdleOk(s', d) && IdleOwn(s', d, c) && ApartOk(s', c, d))
    && s'.table.activeCount == Occupied(s'.table.threads)
  }

  lemma StepKeeps(s: State, s': State, c: nat)
    requires Core(s) && Shape(s') && Births(s') && c < |s.pc| && StepOf(s, s', c) && LocalDuty(s, s', c)
    ensures Core(s')
  {
    forall d | 0 <= d < |s.pc| ensures AtPc(s', d) {
      if d != c { OtherKept(s, s', c, d); }
    }
    forall t | 0 <= t < |s.table.threads| ensures FlagOk(s', t) && ResumeOk(s', t) && ZombieOk(s', t) {
      if Foreign(s, c, t) { ForeignSlotKept(s, s', c, t); }
    }
    forall d, t | 0 <= d < |s.pc| && 0 <= t < |s.table.threads| ensures ClaimOk(s', d, t) {
      if d != c {
        assert ClaimOk(s, d, t);
        if Claims(s, d, t) { assert Foreign(s, c, t) && SlotKept(s, s', t); }
      }
    }
    forall d, e | 0 <= d < |s.pc| && 0 <= e < |s.pc| ensures IdleOwn(s', d, e) && ApartOk(s', d, e) {
      assert IdleOwn(s, d, e) && ApartOk(s, d, e);
      assert IdleOwn(s', d, c) && ApartOk(s', c, d) && ApartOk(s', c, e);
    }
  }

  // ---- The steps ----

  /** A step that changes nothing shared: only core `c`'s program counter, the lock and bookkeeping move. */
  lemma LocalStep(s: State, s': State, c: nat)
    requires Core(s) && Shape(s') && c < |s.pc|
    requires s'.table == s.table && s'.live == s.live && |s'.pc| == |s.pc| && |s'.log| == |s.log|
    requires forall b | 0 <= b < |s.log| :: s'.log[b].version == s.log[b].version
    requires forall d | 0 <= d < |s.pc| && d != c :: s'.pc[d] == s.pc[d]
    requires Leaving(s'.pc[c]) == Leaving(s.pc[c]) && (s.pc[c].Jump? ==> s'.pc[c].Jump?)
    requires Births(s') && AtPc(s', c)
    requires s'.lock == s.lock || s.lock.None? || s.lock == Some(c)
    requires s'.lock.Some? ==> s'.pc[s'.lock.value].Scan?
    requires PrevIsZombie(s.table, c) ==> s'.pc[c].Dead? || s'.pc[c].Scan?
    ensures Core(s')
  {
    forall t | 0 <= t < |s.table.threads| && !Foreign(s, c, t)
      ensures FlagOk(s', t) && ResumeOk(s', t) && ZombieOk(s', t)
    {
      assert FlagOk(s, t) && ResumeOk(s, t) && ZombieOk(s, t);
    }
    forall t | 0 <= t < |s.table.threads| ensures ClaimOk(s', c, t) {
      assert ClaimOk(s, c, t);
    }
    forall d | 0 <= d < |s.pc| ensures IdleOk(s', d) && IdleOwn(s', d, c) && ApartOk(s', c, d) {
      assert IdleOk(s, d) && IdleOwn(s, d, c) && ApartOk(s, c, d);
    }
    StepKeeps(s, s', c);
  }

  lemma EnterKeeps(s: State, c: nat)
    requires Core(s) && Enabled(s, EnterSchedule(c))
    ensures Core(Apply(s, EnterSchedule(c)))
  {
    var s' := Apply(s, EnterSchedule(c));
    assert AtPc(s, c);
    if s' != s {
      LocalStep(s, s', c);
    }
  }

  lemma EnterStartKeeps(s: State, c: nat)
    requires Core(s) && Enabled(s, EnterStart(c))
    ensures Core(Apply(s, EnterStart(c)))
  {
    assert AtPc(s, c);
    LocalStep(s, Apply(s, EnterStart(c)), c);
  }

  lemma ExitKeeps(s: State, c: nat, code: int)
    requires Core(s) && Enabled(s, Exit(c, code))
    ensures Core(Apply(s, Exit(c, code)))
  {
    assert AtPc(s, c);
    LocalStep(s, Apply(s, Exit(c, code)), c);
  }

  lemma PollKeeps(s: State, c: nat)
    requires Core(s) && Enabled(s, Poll(c))
    ensures Core(Apply(s, Poll(c)))
  {
    assert AtPc(s, c);
    LocalStep(s, Apply(s, Poll(c)), c);
  }

  lemma FreeKeeps(s: State, c: nat)
    requires Core(s) && Enabled(s, FreeStack(c))
    ensures Core(Apply(s, FreeStack(c)))
  {
    assert AtPc(s, c);
    LocalStep(s, Apply(s, FreeStack(c)), c);
  }

  lemma FetchKeeps(s: State, c: nat)
    requires Core(s) && Enabled(s, FetchRsp(c))
    ensures Core(Apply(s, FetchRsp(c)))
  {
    assert AtPc(s, c);
    LocalStep(s, Apply(s, FetchRsp(c)), c);
  }

  lemma WorkKeeps(s: State, c: nat, depth: nat)
    requires Core(s) && Enabled(s, Work(c, depth))
    ensures Core(Apply(s, Work(c, depth)))
  {
    var s' := Apply(s, Work(c, depth));
    var cur := s.table.current[c];
    assert AtPc(s, c) && ClaimOk(s, c, cur);
    forall t | 0 <= t < |s.table.threads| && Foreign(s, c, t) ensures SlotKept(s, s', t) {
      assert FlagOk(s, t);
    }
    forall t | 0 <= t < |s.table.threads| && !Foreign(s, c, t)
      ensures FlagOk(s', t) && ResumeOk(s', t) && ZombieOk(s', t)
    {
      assert FlagOk(s, t) && ResumeOk(s, t) && ZombieOk(s, t);
    }
    forall t | 0 <= t < |s.table.threads| ensures ClaimOk(s', c, t) {
      assert ClaimOk(s, c, t);
    }
    forall d | 0 <= d < |s.pc| ensures IdleOk(s', d) && IdleOwn(s', d, c) && ApartOk(s', c, d) {
      assert IdleOk(s, d) && IdleOwn(s, d, c) && ApartOk(s, c, d);
    }
    StepKeeps(s, s', c);
  }

  /** A core never stands on the stack of a slot another core answers for. */
  lemma OthersStandElsewhere(s: State, c: nat, d: nat, t: nat)
    requires Core(s) && c < |s.pc| && d < |s.pc| && c != d && t < |s.table.threads|
    requires Claims(s, c, t) && OnStack(s, d)
    ensures s.live[d].value.owner != s.table.threads[t].birth
  {
    assert AtPc(s, d) && ClaimOk(s, c, t) && ClaimOk(s, d, t) && FlagOk(s, t);
  }

  lemma LoadKeeps(s: State, c: nat)
    requires Core(s) && Enabled(s, LoadRsp(c))
    ensures Core(Apply(s, LoadRsp(c)))
  {
    LoadKeepsWith(s, Apply(s, LoadRsp(c)).mem, c);
  }

  lemma LoadKeepsWith(s: State, mem: StackMemory, c: nat)
    requires Core(s) && Enabled(s, LoadRsp(c))
    ensures Core(s.(live := s.live[c := Some(s.pc[c].target)], pc := s.pc[c := Run], mem := mem))
  {
    var s' := s.(live := s.live[c := Some(s.pc[c].target)], pc := s.pc[c := Run], mem := mem);
    assert AtPc(s, c);
    forall t | 0 <= t < |s.table.threads| && !Foreign(s, c, t)
      ensures FlagOk(s', t) && ResumeOk(s', t) && ZombieOk(s', t)
    {
      assert FlagOk(s, t) && ResumeOk(s, t) && ZombieOk(s, t);
    }
    forall t | 0 <= t < |s.table.threads| ensures ClaimOk(s', c, t) {
      assert ClaimOk(s, c, t);
    }
    forall d | 0 <= d < |s.pc| ensures IdleOk(s', d) && IdleOwn(s', d, c) && ApartOk(s', c, d) {
      assert IdleOk(s, d) && IdleOwn(s, d, c);
      if d != c && OnStack(s, d) { OthersStandElsewhere(s, c, d, s.table.current[c]); }
    }
    StepKeeps(s, s', c);
  }

  /** From `s` to `s'`, core `c` rewrites only its own program counter and the record of a slot `x` it answers for. */
  predicate RewritesSlot(s: State, s': State, c: nat, x: nat)
    requires Shape(s) && c < |s.pc| == |s'.pc| && x < |s.table.threads| == |s'.table.threads|
  {
    && s'.table.threads == s.table.threads[x := s'.table.threads[x]]
    && s'.table == s.table.(threads := s'.table.threads)
    && s'.table.threads[x].birth == s.table.threads[x].birth
    && s'.table.threads[x].isIdle == s.table.threads[x].isIdle
    && !s.table.threads[x].state.Unused? && !s'.table.threads[x].state.Unused?
    && s.table.threads[x].runningOn == c
    && s'.pc == s.pc[c := s'.pc[c]] && PcInRange(s, s'.pc[c])
    && !s.pc[c].Scan? && !s.pc[c].Jump?
    && s'.live == s.live && s'.log == s.log && s'.lock == s.lock
  }

  lemma RewriteShape(s: State, s': State, c: nat, x: nat)
    requires Core(s) && c < |s.pc| && x < |s.table.threads| && |s'.table.threads| == |s.table.threads|
    requires |s'.pc| == |s.pc| && RewritesSlot(s, s', c, x)
    ensures Shape(s') && Births(s') && StepOf(s, s', c)
  {
  }

  lemma RewriteKeeps(s: State, s': State, c: nat, x: nat)
    requires Core(s) && c < |s.pc| && x < |s.table.threads| && |s'.table.threads| == |s.table.threads|
    requires |s'.pc| == |s.pc| && RewritesSlot(s, s', c, x)
    requires Shape(s') && Births(s') && StepOf(s, s', c)
    requires AtPc(s', c) && FlagOk(s', x) && ResumeOk(s', x) && ZombieOk(s', x)
    requires forall t | 0 <= t < |s.table.threads| && Claims(s', c, t) :: Claims(s, c, t) && (t == x ==> s'.table.threads[t].runningOn == c)
    requires forall t | 0 <= t < |s.table.threads| && t != x && Claims(s, c, t) :: Claims(s', c, t)
    requires s.table.threads[x].isIdle ==> s'.table.threads[x].state == s.table.threads[x].state
    requires !s.pc[c].Dead?
    ensures Core(s')
  {
    OccupiedUpdate(s.table.threads, x, s'.table.threads[x]);
    forall t | 0 <= t < |s.table.threads| && !Foreign(s, c, t)
      ensures FlagOk(s', t) && ResumeOk(s', t) && ZombieOk(s', t)
    {
      assert FlagOk(s, t) && ResumeOk(s, t) && ZombieOk(s, t);
    }
    forall t | 0 <= t < |s.table.threads| ensures ClaimOk(s', c, t) {
      assert ClaimOk(s, c, t);
    }
    forall d | 0 <= d < |s.pc| ensures IdleOk(s', d) && IdleOwn(s', d, c) && ApartOk(s', c, d) {
      assert IdleOk(s, d) && IdleOwn(s, d, c) && ApartOk(s, c, d);
    }
    StepKeeps(s, s', c);
  }

  lemma SaveKeeps(s: State, c: nat)
    requires Core(s) && Enabled(s, SaveRsp(c))
    ensures Core(Apply(s, SaveRsp(c)))
  {
    var s' := Apply(s, SaveRsp(c));
    var prev := s.pc[c].prev;
    assert AtPc(s, c) && ClaimOk(s, c, prev) && FlagOk(s, prev) && ResumeOk(s, prev) && ZombieOk(s, prev);
    RewriteShape(s, s', c, prev);
    RewriteKeeps(s, s', c, prev);
  }

  lemma ClearKeeps(s: State, c: nat)
    requires Core(s) && Enabled(s, ClearFlag(c))
    ensures Core(Apply(s, ClearFlag(c)))
  {
    var s' := Apply(s, ClearFlag(c));
    var prev := s.pc[c].prev;
    assert AtPc(s, c) && ClaimOk(s, c, prev) && FlagOk(s, prev) && ResumeOk(s, prev) && ZombieOk(s, prev);
    RewriteShape(s, s', c, prev);
    RewriteKeeps(s, s', c, prev);
  }

  lemma ZombieKeeps(s: State, c: nat)
    requires Core(s) && Enabled(s, MarkZombie(c))
    ensures Core(Apply(s, MarkZombie(c)))
  {
    var s' := Apply(s, MarkZombie(c));
    var cur := s.table.current[c];
    assert AtPc(s, c) && ClaimOk(s, c, cur) && FlagOk(s, cur) && ResumeOk(s, cur) && ZombieOk(s, cur);
    RewriteShape(s, s', c, cur);
    RewriteKeeps(s, s', c, cur);
  }

  /** thread_create_ex(), whatever it records besides the new thread. */
  predicate Creates(s: State, s': State, exitOut: Option<nat>)
    requires Shape(s)
  {
    var id := FirstUnused(s.table.threads, 0);
    && 0 <= id < |s.table.threads| && s'.table == Create(s.table, id, |s.log|, exitOut, false)
    && s'.pc == s.pc && s'.live == s.live && s'.lock == s.lock
    && |s'.log| == |s.log| + 1 && s'.log[|s.log|].version == 0
    && forall b | 0 <= b < |s.log| :: s'.log[b].version == s.log[b].version
  }

  lemma CreateShape(s: State, s': State, c: nat, exitOut: Option<nat>)
    requires Core(s) && c < |s.pc| && Creates(s, s', exitOut)
    ensures Shape(s') && Births(s') && StepOf(s, s', c)
  {
    var id := FirstUnused(s.table.threads, 0);
    FirstUnusedIsFirst(s.table.threads, 0);
    assert FlagOk(s, id);
    assert forall d | 0 <= d < |s.pc| :: PcInRange(s, s.pc[d]);
    assert forall d | 0 <= d < |s'.pc| :: PcInRange(s', s'.pc[d]);
  }

  lemma CreateSlot(s: State, s': State, c: nat, exitOut: Option<nat>, t: nat)
    requires Core(s) && c < |s.pc| && Creates(s, s', exitOut) && Shape(s') && Births(s') && t < |s.table.threads|
    ensures FlagOk(s', t) && ResumeOk(s', t) && ZombieOk(s', t) && ClaimOk(s', c, t)
  {
    FirstUnusedIsFirst(s.table.threads, 0);
    assert FlagOk(s, t) && ResumeOk(s, t) && ZombieOk(s, t) && ClaimOk(s, c, t);
  }

  lemma CreateKeeps(s: State, s': State, c: nat, exitOut: Option<nat>)
    requires Core(s) && c < |s.pc| && Creates(s, s', exitOut)
    requires Shape(s') && Births(s') && StepOf(s, s', c)
    ensures Core(s')
  {
    var id := FirstUnused(s.table.threads, 0);
    FirstUnusedIsFirst(s.table.threads, 0);
    OccupiedUpdate(s.table.threads, id, s'.table.threads[id]);
    assert FlagOk(s, id) && ClaimOk(s, c, id) && AtPc(s, c);
    PointKept(s, s', c);
    forall t | 0 <= t < |s.table.threads|
      ensures FlagOk(s', t) && ResumeOk(s', t) && ZombieOk(s', t) && ClaimOk(s', c, t)
    {
      CreateSlot(s, s', c, exitOut, t);
    }
    forall d | 0 <= d < |s.pc| ensures IdleOk(s', d) && IdleOwn(s', d, c) && ApartOk(s', c, d) {
      assert IdleOk(s, d) && IdleOwn(s, d, c) && ApartOk(s, c, d);
    }
    StepKeeps(s, s', c);
  }

  /** Slot `next` is one core `c` may switch to: alive, unclaimed, and not another core's idle thread. */
  predicate MaySwitchTo(s: State, c: nat, next: nat)
    requires Shape(s) && c < |s.pc| && next < |s.table.threads|
  {
    && s.table.threads[next].state.Active? && s.table.threads[next].runningOn == -1
    && (s.table.threads[next].isIdle ==> next == s.table.idle[c])
  }

  lemma CommitShape(s: State, c: nat, next: nat)
    requires Core(s) && c < |s.pc| && s.pc[c].Scan? && next < |s.table.threads| && MaySwitchTo(s, c, next)
    ensures var s' := DoCommit(s, c, next); Shape(s') && Births(s') && StepOf(s, s', c)
  {
    var s' := DoCommit(s, c, next);
    assert AtPc(s, c);
    if s.table.current[c] >= 0 { assert ClaimOk(s, c, s.table.current[c]); }
    assert forall d | 0 <= d < |s'.pc| && d != c :: s'.pc[d] == s.pc[d] && PcInRange(s, s.pc[d]);
    assert forall d | 0 <= d < |s'.pc| :: PcInRange(s', s'.pc[d]);
  }

  /** The number of occupied slots after a commit: one less when a zombie was reaped. */
  lemma CommitCount(s: State, c: nat, next: nat)
    requires Core(s) && c < |s.pc| && s.pc[c].Scan? && next < |s.table.threads| && MaySwitchTo(s, c, next)
    ensures var s' := DoCommit(s, c, next); s'.table.activeCount == Occupied(s'.table.threads)
  {
    var th := s.table.threads;
    var claimed := th[next].(runningOn := c);
    OccupiedUpdate(th, next, claimed);
    if PrevIsZombie(s.table, c) {
      var prev := s.table.current[c];
      OccupiedUpdate(th[next := claimed], prev, th[prev].(state := Unused, runningOn := -1));
    }
  }

  lemma CommitPoint(s: State, c: nat, next: nat)
    requires Core(s) && c < |s.pc| && s.pc[c].Scan? && next < |s.table.threads| && MaySwitchTo(s, c, next)
    requires var s' := DoCommit(s, c, next); Shape(s') && Births(s')
    ensures AtPc(DoCommit(s, c, next), c)
  {
    assert AtPc(s, c) && ResumeOk(s, next) && ClaimOk(s, c, next);
  }

  lemma CommitSlot(s: State, c: nat, next: nat, t: nat)
    requires Core(s) && c < |s.pc| && s.pc[c].Scan? && next < |s.table.threads| && MaySwitchTo(s, c, next)
    requires t < |s.table.threads| && Shape(DoCommit(s, c, next)) && Births(DoCommit(s, c, next))
    ensures var s' := DoCommit(s, c, next);
            ClaimOk(s', c, t) && (!Foreign(s, c, t) ==> FlagOk(s', t) && ResumeOk(s', t) && ZombieOk(s', t))
  {
    assert AtPc(s, c) && ClaimOk(s, c, next);
    assert FlagOk(s, t) && ResumeOk(s, t) && ZombieOk(s, t) && ClaimOk(s, c, t);
  }

  lemma CommitKeeps(s: State, c: nat, next: nat)
    requires Core(s) && c < |s.pc| && s.pc[c].Scan? && next < |s.table.threads| && MaySwitchTo(s, c, next)
    ensures Core(DoCommit(s, c, next))
  {
    var s' := DoCommit(s, c, next);
    CommitShape(s, c, next);
    CommitCount(s, c, next);
    CommitPoint(s, c, next);
    assert AtPc(s, c);
    forall t | 0 <= t < |s.table.threads|
      ensures ClaimOk(s', c, t) && (!Foreign(s, c, t) ==> FlagOk(s', t) && ResumeOk(s', t) && ZombieOk(s', t))
    {
      CommitSlot(s, c, next, t);
    }
    forall d | 0 <= d < |s.pc| ensures IdleOk(s', d) && IdleOwn(s', d, c) && ApartOk(s', c, d) {
      assert IdleOk(s, d) && IdleOwn(s, d, c) && ApartOk(s, c, d);
    }
    StepKeeps(s, s', c);
  }

  /** A core that has no thread, or whose thread is dead, finds its idle thread alive and unclaimed. */
  lemma IdleIsFree(s: State, c: nat)
    requires Core(s) && c < |s.pc| && s.pc[c].Scan?
    requires s.table.current[c] < 0 || PrevIsZombie(s.table, c)
    ensures MaySwitchTo(s, c, s.table.idle[c])
  {
    var t := s.table.idle[c];
    assert IdleOk(s, c) && FlagOk(s, t) && AtPc(s, c);
    forall r | 0 <= r < |s.pc| ensures !Claims(s, r, t) {
      assert IdleOwn(s, c, r);
    }
  }

  lemma ScanKeeps(s: State, c: nat)
    requires Core(s) && Enabled(s, ScanOne(c))
    ensures Core(Apply(s, ScanOne(c)))
  {
    var t := s.table;
    var i := s.pc[c].round;
    var n := |t.threads|;
    assert AtPc(s, c);
    if i <= n && Ready(t.threads[ScanSlot(t.current[c], i, n)]) {
      assert FlagOk(s, ScanSlot(t.current[c], i, n));
      CommitKeeps(s, c, ScanSlot(t.current[c], i, n));
    } else if i > n && (s.pc[c].starting || PrevIsZombie(t, c)) {
      IdleIsFree(s, c);
      CommitKeeps(s, c, t.idle[c]);
    } else {
      LocalStep(s, Apply(s, ScanOne(c)), c);
    }
  }

  lemma InitialSlots(n: nat, cores: nat, t: nat)
    requires cores <= n && t < n && Shape(Initial(n, cores)) && Births(Initial(n, cores))
    ensures var s := Initial(n, cores); FlagOk(s, t) && ResumeOk(s, t) && ZombieOk(s, t)
    ensures var s := Initial(n, cores); forall c | 0 <= c < cores :: ClaimOk(s, c, t)
  {
  }

  lemma InitialShape(n: nat, cores: nat)
    requires cores <= n && 0 < n
    ensures Shape(Initial(n, cores)) && Births(Initial(n, cores))
  {
  }

  lemma InitialCore(n: nat, cores: nat)
    requires cores <= n && 0 < n
    ensures Core(Initial(n, cores))
  {
    var s := Initial(n, cores);
    InitialShape(n, cores);
    InitialCount(n, cores, n);
    assert s.table.threads[..n] == s.table.threads;
    forall t | 0 <= t < n
      ensures FlagOk(s, t) && ResumeOk(s, t) && ZombieOk(s, t) && forall c | 0 <= c < cores :: ClaimOk(s, c, t)
    {
      InitialSlots(n, cores, t);
    }
  }

  lemma {:induction false} InitialCount(n: nat, cores: nat, k: nat)
    requires cores <= n && k <= n
    ensures Occupied(InitialTable(n, cores).threads[..k]) == if k <= cores then k else cores
  {
    var th := InitialTable(n, cores).threads;
    if k > 0 {
      InitialCount(n, cores, k - 1);
      assert th[..k][..k - 1] == th[..k - 1];
    }
  }

  lemma NextKeeps(s: State, a: Step)
    requires Core(s) && Enabled(s, a)
    ensures Core(Apply(s, a))
  {
    match a
    case Work(c, depth) => WorkKeeps(s, c, depth);
    case CreateThread(c, _) =>
      FirstUnusedIsFirst(s.table.threads, 0);
      CreateShape(s, Apply(s, a), c, None);
      CreateKeeps(s, Apply(s, a), c, None);
    case SpawnAndWait(c, _) =>
      FirstUnusedIsFirst(s.table.threads, 0);
      CreateShape(s, Apply(s, a), c, Some(|s.frames|));
      CreateKeeps(s, Apply(s, a), c, Some(|s.frames|));
    case Poll(c) => PollKeeps(s, c);
    case Exit(c, code) => ExitKeeps(s, c, code);
    case MarkZombie(c) => ZombieKeeps(s, c);
    case EnterSchedule(c) => EnterKeeps(s, c);
    case EnterStart(c) => EnterStartKeeps(s, c);
    case ScanOne(c) => ScanKeeps(s, c);
    case FreeStack(c) => FreeKeeps(s, c);
    case FetchRsp(c) => FetchKeeps(s, c);
    case SaveRsp(c) => SaveKeeps(s, c);
    case ClearFlag(c) => ClearKeeps(s, c);
    case LoadRsp(c) => LoadKeeps(s, c);
  }
}
