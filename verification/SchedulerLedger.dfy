/**
 What becomes of every thread ever created: its stack is given back once, and
 its exit code reaches the frame that waits for it once.
 */
module SchedulerLedger {
  import opened Common
  import opened SchedulerTable
  import opened SchedulerMachine
  import opened SchedulerInvariant
  import opened SchedulerSafety

  // ---- Stacks ----

  predicate InSlot(s: State, b: nat) {
    exists t :: 0 <= t < |s.table.threads| && Occupies(s, t) && s.table.threads[t].birth == b
  }

  predicate Pending(s: State, b: nat) {
    exists c :: 0 <= c < |s.pc| && s.pc[c] == Reap(b)
  }

  /** Every stack ever allocated is held by a slot, about to be freed, or freed; a freed one is freed once and nowhere else. */
  predicate Stacks(s: State)
    requires Shape(s)
  {
    && (forall i, j | 0 <= i < j < |s.freed| :: s.freed[i] != s.freed[j])
    && (forall b | 0 <= b < |s.log| :: StackOk(s, b))
    && (forall b | b in s.freed :: b < |s.log|)
  }

  predicate StackOk(s: State, b: nat) {
    && (InSlot(s, b) || Pending(s, b) || b in s.freed)
    && (b in s.freed ==> !InSlot(s, b) && !Pending(s, b))
  }

  // ---- Exit codes ----

  /** The thread in slot `t` has delivered its exit code but is not yet marked a zombie. */
  predicate IsExiting(s: State, t: nat)
    requires Shape(s) && t < |s.table.threads|
  {
    var r := s.table.threads[t].runningOn;
    0 <= r < |s.pc| && s.table.current[r] == t && s.pc[r].Exiting?
  }

  predicate SlotLedger(s: State, t: nat)
    requires Shape(s) && t < |s.table.threads|
  {
    Occupies(s, t) ==>
      var th := s.table.threads[t];
      && th.birth < |s.log|
      && (th.exitOut.Some? ==> th.exitOut.value < |s.frames| && s.frames[th.exitOut.value].child == th.birth)
      && |s.log[th.birth].passed| == if th.state.Zombie? || IsExiting(s, t) then 1 else 0
  }

  predicate ThreadLedger(s: State, b: nat)
    requires b < |s.log|
  {
    var r := s.log[b];
    && (!InSlot(s, b) ==> |r.passed| == 1)
    && (r.waiting.Some? ==> r.passed == [] && WaitOk(s, b, r.waiting.value))
  }

  /** A wait names the slot its child was created in, and the child if it is still around is in that slot. */
  predicate WaitOk(s: State, waiter: nat, w: Wait) {
    && w.slot < |s.table.threads| && w.frame < |s.frames|
    && waiter < w.child < |s.log|
    && s.frames[w.frame].owner == waiter && s.frames[w.frame].child == w.child
    && forall t | 0 <= t < |s.table.threads| && Occupies(s, t) && s.table.threads[t].birth == w.child :: t == w.slot
  }

  /** Exactly what the child passed has been stored here, by the child; the wait is over once and for all when it returned. */
  predicate FrameLedger(s: State, f: nat)
    requires f < |s.frames|
  {
    var fr := s.frames[f];
    && fr.owner < fr.child < |s.log|
    && Delivered(fr.child, s.log[fr.child].passed, fr.stores)
    && (fr.returned.None? <==> WaitsAt(s, fr.owner, f))
    && (fr.returned.Some? ==>
          |s.log[fr.child].passed| == 1 && fr.returned.value == AsInt32(s.log[fr.child].passed[0]))
    && (forall t | 0 <= t < |s.table.threads| && Occupies(s, t) && s.table.threads[t].birth == fr.child ::
          s.table.threads[t].exitOut == Some(f))
  }

  predicate Delivered(child: nat, passed: seq<int>, stores: seq<Delivery>) {
    |stores| == |passed| && forall k | 0 <= k < |passed| :: stores[k] == Delivery(child, passed[k])
  }

  /** Thread `b` is inside the wait whose `exit_code` is frame `f`. */
  predicate WaitsAt(s: State, b: nat, f: nat) {
    b < |s.log| && s.log[b].waiting.Some? && s.log[b].waiting.value.frame == f
  }

  // ---- Blocks ----

  /** Two stacks not given back are different blocks. */
  predicate BlockOk(s: State, b: nat, d: nat)
    requires b < |s.log| && d < |s.log|
  {
    b != d && b !in s.freed && d !in s.freed ==> s.log[b].stack != s.log[d].stack
  }

  predicate Blocks(s: State) {
    forall b, d | 0 <= b < |s.log| && 0 <= d < |s.log| :: BlockOk(s, b, d)
  }

  predicate Ledger(s: State) {
    && Shape(s)
    && Stacks(s)
    && (forall t | 0 <= t < |s.table.threads| :: SlotLedger(s, t))
    && (forall b | 0 <= b < |s.log| :: ThreadLedger(s, b))
    && (forall f | 0 <= f < |s.frames| :: FrameLedger(s, f))
    && Blocks(s)
  }

  // ---- Steps that leave the ledger alone ----

  predicate SameStory(s: State, s': State)
    requires Shape(s) && Shape(s')
  {
    && |s'.log| == |s.log| && |s'.pc| == |s.pc| && |s'.table.threads| == |s.table.threads| && s'.freed == s.freed
    && s'.frames == s.frames
    && (forall b | 0 <= b < |s.log| :: s'.log[b] == s.log[b].(version := s'.log[b].version))
    && (forall c | 0 <= c < |s.pc| :: (s'.pc[c].Reap? || s.pc[c].Reap?) ==> s'.pc[c] == s.pc[c])
    && (forall t | 0 <= t < |s.table.threads| ::
          && s'.table.threads[t].state == s.table.threads[t].state
          && s'.table.threads[t].birth == s.table.threads[t].birth
          && s'.table.threads[t].exitOut == s.table.threads[t].exitOut
          && IsExiting(s', t) == IsExiting(s, t))
  }

  lemma PendingSame(s: State, s': State, b: nat)
    requires |s'.pc| == |s.pc|
    requires forall c | 0 <= c < |s.pc| :: (s'.pc[c].Reap? || s.pc[c].Reap?) ==> s'.pc[c] == s.pc[c]
    ensures Pending(s', b) == Pending(s, b)
  {
    if Pending(s, b) {
      var c :| 0 <= c < |s.pc| && s.pc[c] == Reap(b);
      assert s'.pc[c] == Reap(b);
    }
  }

  lemma StoryKeeps(s: State, s': State)
    requires Ledger(s) && Shape(s') && SameStory(s, s')
    ensures Ledger(s')
  {
    assert forall b :: InSlot(s, b) == InSlot(s', b) by {
      forall b: nat ensures InSlot(s, b) == InSlot(s', b) {
        if InSlot(s, b) {
          var t :| 0 <= t < |s.table.threads| && Occupies(s, t) && s.table.threads[t].birth == b;
          assert Occupies(s', t);
        }
        if InSlot(s', b) {
          var t :| 0 <= t < |s.table.threads| && Occupies(s', t) && s'.table.threads[t].birth == b;
          assert Occupies(s, t);
        }
      }
    }
    forall b | 0 <= b < |s.log| ensures StackOk(s', b) {
      assert StackOk(s, b);
      assert Pending(s, b) == Pending(s', b);
    }
    forall t | 0 <= t < |s.table.threads| ensures SlotLedger(s', t) {
      assert SlotLedger(s, t);
    }
    forall b | 0 <= b < |s.log| ensures ThreadLedger(s', b) {
      assert ThreadLedger(s, b);
      if s'.log[b].waiting.Some? {
        assert WaitOk(s', b, s'.log[b].waiting.value);
      }
    }
    forall f | 0 <= f < |s.frames| ensures FrameLedger(s', f) {
      FrameKept(s, s', f);
    }
    BlocksKept(s, s');
  }

  /** A frame nobody stores to, and whose waiter and child stay where they are, is as it was. */
  lemma FrameKept(s: State, s': State, f: nat)
    requires f < |s.frames| <= |s'.frames| && s'.frames[f] == s.frames[f] && FrameLedger(s, f)
    requires |s.log| <= |s'.log| && |s'.table.threads| == |s.table.threads|
    requires s'.log[s.frames[f].child].passed == s.log[s.frames[f].child].passed
    requires WaitsAt(s', s.frames[f].owner, f) == WaitsAt(s, s.frames[f].owner, f)
    requires forall t | 0 <= t < |s.table.threads| && Occupies(s', t) && s'.table.threads[t].birth == s.frames[f].child ::
               Occupies(s, t) && s.table.threads[t].birth == s.frames[f].child
               && s'.table.threads[t].exitOut == s.table.threads[t].exitOut
    ensures FrameLedger(s', f)
  {
  }

  /** Blocks stay apart when no thread is created. */
  lemma BlocksKept(s: State, s': State)
    requires Blocks(s) && |s'.log| == |s.log| && (forall b | 0 <= b < |s.log| :: s'.log[b].stack == s.log[b].stack)
    requires forall b | b in s.freed :: b in s'.freed
    ensures Blocks(s')
  {
    forall b, d | 0 <= b < |s.log| && 0 <= d < |s.log| ensures BlockOk(s', b, d) {
      assert BlockOk(s, b, d);
    }
  }

  /** A new thread's stack is a block no unfreed stack is in. */
  lemma BlocksGrown(s: State, s': State, stack: nat)
    requires Blocks(s) && BlockFree(s, stack) && |s'.log| == |s.log| + 1 && s'.freed == s.freed
    requires s'.log[|s.log|].stack == stack && forall b | 0 <= b < |s.log| :: s'.log[b].stack == s.log[b].stack
    ensures Blocks(s')
  {
    forall b, d | 0 <= b < |s'.log| && 0 <= d < |s'.log| ensures BlockOk(s', b, d) {
      assert b < |s.log| && d < |s.log| ==> BlockOk(s, b, d);
    }
  }

  lemma QuietKeeps(s: State, a: Step)
    requires Core(s) && Ledger(s) && Enabled(s, a)
    requires a.Work? || a.EnterSchedule? || a.EnterStart? || a.FetchRsp? || a.LoadRsp?
    requires Shape(Apply(s, a))
    ensures Ledger(Apply(s, a))
  {
    StoryKeeps(s, Apply(s, a));
  }

  lemma LeaveKeeps(s: State, a: Step)
    requires Core(s) && Ledger(s) && Enabled(s, a) && (a.SaveRsp? || a.ClearFlag?)
    requires Shape(Apply(s, a))
    ensures Ledger(Apply(s, a))
  {
    var s' := Apply(s, a);
    assert AtPc(s, a.c) && ClaimOk(s, a.c, s.pc[a.c].prev);
    forall t | 0 <= t < |s.table.threads| ensures IsExiting(s', t) == IsExiting(s, t) {
      assert FlagOk(s, t);
    }
    StoryKeeps(s, s');
  }

  lemma SwitchKeeps(s: State, c: nat, next: nat)
    requires Core(s) && Ledger(s) && c < |s.pc| && s.pc[c].Scan? && next < |s.table.threads| && MaySwitchTo(s, c, next)
    requires !PrevIsZombie(s.table, c) && Shape(DoCommit(s, c, next))
    ensures Ledger(DoCommit(s, c, next))
  {
    var s' := DoCommit(s, c, next);
    assert AtPc(s, c);
    forall t | 0 <= t < |s.table.threads| ensures IsExiting(s', t) == IsExiting(s, t) {
      assert FlagOk(s, t) && ClaimOk(s, c, t);
    }
    StoryKeeps(s, s');
  }

  /** Who is in a slot after slot `x` changed hands: everyone but its old occupant. */
  lemma SlotEmptied(s: State, s': State, x: nat, b: nat)
    requires Core(s) && |s'.table.threads| == |s.table.threads| && x < |s.table.threads|
    requires Occupies(s, x) && !Occupies(s', x)
    requires forall t | 0 <= t < |s.table.threads| && t != x ::
               s'.table.threads[t].state == s.table.threads[t].state && s'.table.threads[t].birth == s.table.threads[t].birth
    ensures InSlot(s', b) <==> InSlot(s, b) && b != s.table.threads[x].birth
  {
    if InSlot(s, b) && b != s.table.threads[x].birth {
      var t :| 0 <= t < |s.table.threads| && Occupies(s, t) && s.table.threads[t].birth == b;
      assert Occupies(s', t);
    }
    if InSlot(s', b) {
      var t :| 0 <= t < |s.table.threads| && Occupies(s', t) && s'.table.threads[t].birth == b;
      assert Occupies(s, t);
    }
  }

  lemma ReapStacks(s: State, c: nat, next: nat)
    requires Core(s) && Ledger(s) && c < |s.pc| && s.pc[c].Scan? && next < |s.table.threads| && MaySwitchTo(s, c, next)
    requires PrevIsZombie(s.table, c) && Shape(DoCommit(s, c, next))
    ensures forall b | 0 <= b < |s.log| :: StackOk(DoCommit(s, c, next), b)
  {
    var s' := DoCommit(s, c, next);
    var prev := s.table.current[c];
    var dead := s.table.threads[prev].birth;
    assert AtPc(s, c) && SlotLedger(s, prev);
    assert forall t | 0 <= t < |s.table.threads| && t != prev ::
             s'.table.threads[t].state == s.table.threads[t].state && s'.table.threads[t].birth == s.table.threads[t].birth;
    assert s'.pc[c] == Reap(dead);
    forall b | 0 <= b < |s.log| ensures StackOk(s', b) {
      assert StackOk(s, b);
      SlotEmptied(s, s', prev, b);
      if Pending(s, b) {
        var d :| 0 <= d < |s.pc| && s.pc[d] == Reap(b);
        assert s'.pc[d] == Reap(b);
      }
      assert InSlot(s, dead) by { assert Occupies(s, prev); }
    }
  }

  lemma ReapThreads(s: State, c: nat, next: nat)
    requires Core(s) && Ledger(s) && c < |s.pc| && s.pc[c].Scan? && next < |s.table.threads| && MaySwitchTo(s, c, next)
    requires PrevIsZombie(s.table, c) && Shape(DoCommit(s, c, next))
    ensures forall b | 0 <= b < |s.log| :: ThreadLedger(DoCommit(s, c, next), b)
  {
    var s' := DoCommit(s, c, next);
    var prev := s.table.current[c];
    assert AtPc(s, c) && SlotLedger(s, prev);
    assert forall t | 0 <= t < |s.table.threads| && t != prev ::
             s'.table.threads[t].state == s.table.threads[t].state && s'.table.threads[t].birth == s.table.threads[t].birth;
    forall b | 0 <= b < |s.log| ensures ThreadLedger(s', b) {
      assert ThreadLedger(s, b);
      SlotEmptied(s, s', prev, b);
      if s'.log[b].waiting.Some? {
        assert WaitOk(s', b, s'.log[b].waiting.value);
      }
    }
  }

  lemma ReapKeeps(s: State, c: nat, next: nat)
    requires Core(s) && Ledger(s) && c < |s.pc| && s.pc[c].Scan? && next < |s.table.threads| && MaySwitchTo(s, c, next)
    requires PrevIsZombie(s.table, c) && Shape(DoCommit(s, c, next))
    ensures Ledger(DoCommit(s, c, next))
  {
    var s' := DoCommit(s, c, next);
    ReapStacks(s, c, next);
    ReapThreads(s, c, next);
    forall t | 0 <= t < |s.table.threads| ensures SlotLedger(s', t) {
      assert SlotLedger(s, t) && FlagOk(s, t) && ClaimOk(s, c, t);
    }
    forall f | 0 <= f < |s.frames| ensures FrameLedger(s', f) {
      assert FrameLedger(s, f);
      FrameKept(s, s', f);
    }
    BlocksKept(s, s');
  }

  lemma ScanLedger(s: State, c: nat)
    requires Core(s) && Ledger(s) && Enabled(s, ScanOne(c)) && Shape(Apply(s, ScanOne(c)))
    ensures Ledger(Apply(s, ScanOne(c)))
  {
    var t := s.table;
    var i := s.pc[c].round;
    var n := |t.threads|;
    assert AtPc(s, c);
    if i <= n && Ready(t.threads[ScanSlot(t.current[c], i, n)]) {
      var next := ScanSlot(t.current[c], i, n);
      assert FlagOk(s, next);
      if PrevIsZombie(t, c) { ReapKeeps(s, c, next); } else { SwitchKeeps(s, c, next); }
    } else if i > n && (s.pc[c].starting || PrevIsZombie(t, c)) {
      IdleIsFree(s, c);
      if PrevIsZombie(t, c) { ReapKeeps(s, c, t.idle[c]); } else { SwitchKeeps(s, c, t.idle[c]); }
    } else {
      StoryKeeps(s, Apply(s, ScanOne(c)));
    }
  }

  lemma FreeLedger(s: State, c: nat)
    requires Core(s) && Ledger(s) && Enabled(s, FreeStack(c)) && Shape(Apply(s, FreeStack(c)))
    ensures Ledger(Apply(s, FreeStack(c)))
  {
    var s' := Apply(s, FreeStack(c));
    var dead := s.pc[c].stack;
    assert AtPc(s, c);
    assert Pending(s, dead) && StackOk(s, dead);
    assert !Pending(s', dead) by {
      forall d | 0 <= d < |s'.pc| ensures s'.pc[d] != Reap(dead) {
        if d != c { assert AtPc(s, d) && ApartOk(s, c, d); }
      }
    }
    forall b | 0 <= b < |s.log| ensures StackOk(s', b) {
      assert StackOk(s, b);
      assert InSlot(s', b) == InSlot(s, b);
      if b != dead {
        assert Pending(s', b) == Pending(s, b) by {
          if Pending(s, b) {
            var d :| 0 <= d < |s.pc| && s.pc[d] == Reap(b);
            assert s'.pc[d] == Reap(b);
          }
        }
      }
    }
    forall t | 0 <= t < |s.table.threads| ensures SlotLedger(s', t) {
      assert SlotLedger(s, t);
    }
    forall b | 0 <= b < |s.log| ensures ThreadLedger(s', b) {
      assert ThreadLedger(s, b);
    }
    forall f | 0 <= f < |s.frames| ensures FrameLedger(s', f) {
      assert FrameLedger(s, f);
      FrameKept(s, s', f);
    }
    BlocksKept(s, s');
  }

  /** Who is in a slot after thread_create_ex() filled slot `id`: everyone who was, and the new thread. */
  lemma SlotFilled(s: State, s': State, id: nat, b: nat)
    requires id < |s.table.threads| && |s'.table.threads| == |s.table.threads|
    requires !Occupies(s, id) && Occupies(s', id) && s'.table.threads[id].birth == |s.log|
    requires forall t | 0 <= t < |s.table.threads| && t != id :: s'.table.threads[t] == s.table.threads[t]
    ensures InSlot(s', b) <==> InSlot(s, b) || b == |s.log|
  {
    if InSlot(s, b) {
      var t :| 0 <= t < |s.table.threads| && Occupies(s, t) && s.table.threads[t].birth == b;
      assert Occupies(s', t);
    }
    if InSlot(s', b) {
      var t :| 0 <= t < |s.table.threads| && Occupies(s', t) && s'.table.threads[t].birth == b;
      if t != id { assert Occupies(s, t); }
    }
  }

  /** thread_create_ex() puts the new stack in slot `id` and moves no other. */
  lemma FilledStacks(s: State, s': State, id: nat)
    requires Core(s) && Ledger(s) && Shape(s') && id < |s.table.threads| == |s'.table.threads|
    requires !Occupies(s, id) && Occupies(s', id) && s'.table.threads[id].birth == |s.log|
    requires forall t | 0 <= t < |s.table.threads| && t != id :: s'.table.threads[t] == s.table.threads[t]
    requires s'.pc == s.pc && s'.freed == s.freed && |s'.log| == |s.log| + 1
    ensures Stacks(s')
  {
    forall b | 0 <= b < |s'.log| ensures StackOk(s', b) {
      SlotFilled(s, s', id, b);
      if b < |s.log| { assert StackOk(s, b); }
      assert Pending(s', b) == Pending(s, b);
      if Pending(s, b) {
        var d :| 0 <= d < |s.pc| && s.pc[d] == Reap(b);
        assert AtPc(s, d);
      }
    }
  }

  lemma CreateLedger(s: State, c: nat, stack: nat)
    requires Core(s) && Ledger(s) && Enabled(s, CreateThread(c, stack)) && Shape(Apply(s, CreateThread(c, stack)))
    ensures Ledger(Apply(s, CreateThread(c, stack)))
  {
    var s' := Apply(s, CreateThread(c, stack));
    FirstUnusedIsFirst(s.table.threads, 0);
    var id := FirstUnused(s.table.threads, 0);
    assert Occupies(s', id);
    FilledStacks(s, s', id);
    forall t | 0 <= t < |s.table.threads| ensures SlotLedger(s', t) {
      assert SlotLedger(s, t) && FlagOk(s, t);
    }
    forall b | 0 <= b < |s'.log| ensures ThreadLedger(s', b) {
      SlotFilled(s, s', id, b);
      if b < |s.log| {
        assert ThreadLedger(s, b);
        if s'.log[b].waiting.Some? {
          assert WaitOk(s', b, s'.log[b].waiting.value);
        }
      }
    }
    forall f | 0 <= f < |s.frames| ensures FrameLedger(s', f) {
      assert FrameLedger(s, f);
      FrameKept(s, s', f);
    }
    BlocksGrown(s, s', stack);
  }

  /** A running thread has passed no exit code, and is the only thread its core stands on. */
  lemma RunnerLedger(s: State, c: nat)
    requires Core(s) && Ledger(s) && c < |s.pc| && s.pc[c].Run?
    ensures var cur := s.table.current[c];
      && 0 <= cur < |s.table.threads| && s.table.threads[cur].birth == Self(s, c) && s.table.threads[cur].state.Active?
      && s.table.threads[cur].runningOn == c
      && Self(s, c) < |s.log| && s.log[Self(s, c)].passed == [] && InSlot(s, Self(s, c))
  {
    var cur := s.table.current[c];
    assert AtPc(s, c) && ClaimOk(s, c, cur) && SlotLedger(s, cur);
    assert Occupies(s, cur);
  }

  lemma SpawnThread(s: State, c: nat, stack: nat, b: nat)
    requires Core(s) && Ledger(s) && Enabled(s, SpawnAndWait(c, stack)) && Shape(Apply(s, SpawnAndWait(c, stack)))
    requires b < |Apply(s, SpawnAndWait(c, stack)).log|
    ensures ThreadLedger(Apply(s, SpawnAndWait(c, stack)), b)
  {
    var s', id := Apply(s, SpawnAndWait(c, stack)), FirstUnused(s.table.threads, 0);
    FirstUnusedIsFirst(s.table.threads, 0);
    RunnerLedger(s, c);
    assert Occupies(s', id);
    SlotFilled(s, s', id, b);
    if b < |s.log| {
      assert ThreadLedger(s, b);
      if s'.log[b].waiting.Some? {
        assert WaitOk(s', b, s'.log[b].waiting.value);
      }
    }
  }

  lemma SpawnFrame(s: State, c: nat, stack: nat, f: nat)
    requires Core(s) && Ledger(s) && Enabled(s, SpawnAndWait(c, stack)) && Shape(Apply(s, SpawnAndWait(c, stack)))
    requires f < |Apply(s, SpawnAndWait(c, stack)).frames|
    ensures FrameLedger(Apply(s, SpawnAndWait(c, stack)), f)
  {
    var s', id := Apply(s, SpawnAndWait(c, stack)), FirstUnused(s.table.threads, 0);
    FirstUnusedIsFirst(s.table.threads, 0);
    RunnerLedger(s, c);
    if f < |s.frames| {
      assert FrameLedger(s, f);
      FrameKept(s, s', f);
    } else {
      forall t | 0 <= t < |s.table.threads| && Occupies(s', t) && s'.table.threads[t].birth == |s.log|
        ensures s'.table.threads[t].exitOut == Some(f)
      {
        assert SlotLedger(s, t);
      }
    }
  }

  lemma SpawnLedger(s: State, c: nat, stack: nat)
    requires Core(s) && Ledger(s) && Enabled(s, SpawnAndWait(c, stack)) && Shape(Apply(s, SpawnAndWait(c, stack)))
    ensures Ledger(Apply(s, SpawnAndWait(c, stack)))
  {
    var s', id := Apply(s, SpawnAndWait(c, stack)), FirstUnused(s.table.threads, 0);
    FirstUnusedIsFirst(s.table.threads, 0);
    RunnerLedger(s, c);
    assert Occupies(s', id);
    FilledStacks(s, s', id);
    forall t | 0 <= t < |s.table.threads| ensures SlotLedger(s', t) {
      assert SlotLedger(s, t) && FlagOk(s, t);
    }
    forall b | 0 <= b < |s'.log| ensures ThreadLedger(s', b) {
      SpawnThread(s, c, stack, b);
    }
    forall f | 0 <= f < |s'.frames| ensures FrameLedger(s', f) {
      SpawnFrame(s, c, stack, f);
    }
    BlocksGrown(s, s', stack);
  }

  /** An exit code goes to the frame of the one wait for this thread, and to no other. */
  lemma ExitFrame(s: State, c: nat, code: int, f: nat)
    requires Core(s) && Ledger(s) && Enabled(s, Exit(c, code)) && Shape(Apply(s, Exit(c, code))) && f < |s.frames|
    ensures FrameLedger(Apply(s, Exit(c, code)), f)
  {
    var s' := Apply(s, Exit(c, code));
    var me, cur := Self(s, c), s.table.current[c];
    RunnerLedger(s, c);
    assert SlotLedger(s, cur) && FrameLedger(s, f) && Occupies(s, cur);
    if s.table.threads[cur].exitOut != Some(f) {
      assert s.frames[f].child != me;
      FrameKept(s, s', f);
    } else {
      assert s.frames[f].stores == [] && s'.frames[f].stores == [Delivery(me, code)];
    }
  }

  lemma ExitLedger(s: State, c: nat, code: int)
    requires Core(s) && Ledger(s) && Enabled(s, Exit(c, code)) && Shape(Apply(s, Exit(c, code)))
    ensures Ledger(Apply(s, Exit(c, code)))
  {
    var s' := Apply(s, Exit(c, code));
    var me := Self(s, c);
    var cur := s.table.current[c];
    RunnerLedger(s, c);
    assert SlotLedger(s, cur) && ThreadLedger(s, me);
    forall b | 0 <= b < |s.log| ensures StackOk(s', b) {
      assert StackOk(s, b);
      PendingSame(s, s', b);
      assert InSlot(s', b) == InSlot(s, b);
    }
    forall t | 0 <= t < |s.table.threads| ensures SlotLedger(s', t) {
      assert SlotLedger(s, t) && FlagOk(s, t);
    }
    forall b | 0 <= b < |s'.log| ensures ThreadLedger(s', b) {
      assert ThreadLedger(s, b);
      assert InSlot(s', b) == InSlot(s, b);
      if s'.log[b].waiting.Some? {
        assert WaitOk(s', b, s'.log[b].waiting.value);
      }
    }
    forall f | 0 <= f < |s'.frames| ensures FrameLedger(s', f) {
      ExitFrame(s, c, code, f);
    }
    BlocksKept(s, s');
  }

  lemma ZombieLedger(s: State, c: nat)
    requires Core(s) && Ledger(s) && Enabled(s, MarkZombie(c)) && Shape(Apply(s, MarkZombie(c)))
    ensures Ledger(Apply(s, MarkZombie(c)))
  {
    var s' := Apply(s, MarkZombie(c));
    var cur := s.table.current[c];
    assert AtPc(s, c) && ClaimOk(s, c, cur) && SlotLedger(s, cur);
    assert forall t | 0 <= t < |s.table.threads| ::
             s'.table.threads[t].birth == s.table.threads[t].birth && Occupies(s', t) == Occupies(s, t);
    forall b | 0 <= b < |s.log| ensures InSlot(s', b) == InSlot(s, b) {
      if InSlot(s, b) {
        var t :| 0 <= t < |s.table.threads| && Occupies(s, t) && s.table.threads[t].birth == b;
        assert Occupies(s', t);
      }
    }
    forall b | 0 <= b < |s.log| ensures StackOk(s', b) {
      assert StackOk(s, b);
      PendingSame(s, s', b);
    }
    forall t | 0 <= t < |s.table.threads| ensures SlotLedger(s', t) {
      assert SlotLedger(s, t) && FlagOk(s, t);
    }
    forall b | 0 <= b < |s'.log| ensures ThreadLedger(s', b) {
      assert ThreadLedger(s, b);
      if s'.log[b].waiting.Some? {
        assert WaitOk(s', b, s'.log[b].waiting.value);
      }
    }
    forall f | 0 <= f < |s.frames| ensures FrameLedger(s', f) {
      assert FrameLedger(s, f);
      FrameKept(s, s', f);
    }
    BlocksKept(s, s');
  }

  /** A waiter that sees its child's slot no longer ACTIVE finds the child's own code in its frame, stored once. */
  lemma ChildHasReported(s: State, c: nat)
    requires Core(s) && Ledger(s) && Enabled(s, Poll(c))
    requires !s.table.threads[s.log[Self(s, c)].waiting.value.slot].state.Active?
    ensures var w := s.log[Self(s, c)].waiting.value;
      && Self(s, c) < w.child < |s.log| && s.frames[w.frame].owner == Self(s, c) && s.frames[w.frame].child == w.child
      && |s.log[w.child].passed| == 1 && s.frames[w.frame].stores == [Delivery(w.child, s.log[w.child].passed[0])]
      && Cell(s.frames[w.frame]) == s.log[w.child].passed[0]
      && s.frames[w.frame].returned.None?
  {
    RunnerLedger(s, c);
    var me := Self(s, c);
    var w := s.log[me].waiting.value;
    assert ThreadLedger(s, me) && ThreadLedger(s, w.child) && FrameLedger(s, w.frame);
    assert WaitsAt(s, me, w.frame);
    if InSlot(s, w.child) {
      var t :| 0 <= t < |s.table.threads| && Occupies(s, t) && s.table.threads[t].birth == w.child;
      assert SlotLedger(s, t);
    }
  }

  lemma PollFrame(s: State, c: nat, f: nat)
    requires Core(s) && Ledger(s) && Enabled(s, Poll(c)) && Shape(Apply(s, Poll(c))) && Apply(s, Poll(c)) != s
    requires f < |s.frames|
    ensures FrameLedger(Apply(s, Poll(c)), f)
  {
    var s', me := Apply(s, Poll(c)), Self(s, c);
    ChildHasReported(s, c);
    assert FrameLedger(s, f);
    if f == s.log[me].waiting.value.frame {
      assert !WaitsAt(s', me, f);
    } else {
      assert WaitsAt(s', s.frames[f].owner, f) == WaitsAt(s, s.frames[f].owner, f);
      FrameKept(s, s', f);
    }
  }

  lemma PollLedger(s: State, c: nat)
    requires Core(s) && Ledger(s) && Enabled(s, Poll(c)) && Shape(Apply(s, Poll(c)))
    ensures Ledger(Apply(s, Poll(c)))
  {
    var s' := Apply(s, Poll(c));
    if s' != s {
      ChildHasReported(s, c);
      forall b | 0 <= b < |s.log| ensures StackOk(s', b) {
        assert StackOk(s, b);
        assert InSlot(s', b) == InSlot(s, b) && Pending(s', b) == Pending(s, b);
      }
      forall t | 0 <= t < |s.table.threads| ensures SlotLedger(s', t) {
        assert SlotLedger(s, t);
      }
      forall b | 0 <= b < |s'.log| ensures ThreadLedger(s', b) {
        assert ThreadLedger(s, b);
        assert InSlot(s', b) == InSlot(s, b);
        if s'.log[b].waiting.Some? {
          assert WaitOk(s', b, s'.log[b].waiting.value);
        }
      }
      forall f | 0 <= f < |s'.frames| ensures FrameLedger(s', f) {
        PollFrame(s, c, f);
      }
      BlocksKept(s, s');
    }
  }

  lemma InitialLedger(n: nat, cores: nat)
    requires cores <= n && 0 < n
    ensures Ledger(Initial(n, cores))
  {
    var s := Initial(n, cores);
    forall b | 0 <= b < |s.log| ensures InSlot(s, b) {
      assert Occupies(s, b) && s.table.threads[b].birth == b;
    }
  }

  lemma NextLedger(s: State, a: Step)
    requires Core(s) && Ledger(s) && Enabled(s, a) && Shape(Apply(s, a))
    ensures Ledger(Apply(s, a))
  {
    match a
    case CreateThread(c, stack) => CreateLedger(s, c, stack);
    case SpawnAndWait(c, stack) => SpawnLedger(s, c, stack);
    case Poll(c) => PollLedger(s, c);
    case Exit(c, code) => ExitLedger(s, c, code);
    case MarkZombie(c) => ZombieLedger(s, c);
    case ScanOne(c) => ScanLedger(s, c);
    case FreeStack(c) => FreeLedger(s, c);
    case SaveRsp(c) => LeaveKeeps(s, a);
    case ClearFlag(c) => LeaveKeeps(s, a);
    case _ => QuietKeeps(s, a);
  }
}
