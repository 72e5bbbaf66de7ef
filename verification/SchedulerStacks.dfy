/**
 What happens to the words of a thread's stack: every word a thread uses was last written by
 the thread itself, unless a core that had freed the same block, and not yet left it, pushed
 its registers there.
 */
module SchedulerStacks {
  import opened Common
  import opened SchedulerTable
  import opened SchedulerMachine
  import opened SchedulerInvariant
  import opened SchedulerSafety
  import opened SchedulerLedger
  import opened SchedulerTheorems

  /** Word w of thread b's stack was last written by x. */
  predicate WrittenBy(s: State, b: nat, w: nat, x: nat)
    requires b < |s.log|
  {
    (s.log[b].stack, w) in s.mem.writer && s.mem.writer[(s.log[b].stack, w)] == x
  }

  /** Every word of thread b's stack was last written by b. */
  ghost predicate OwnWords(s: State, b: nat)
    requires b < |s.log|
  {
    forall w | 1 <= w <= Depth(s, b) :: WrittenBy(s, b, w, b)
  }

  /** x had the block before b, and had given it back. */
  predicate Before(s: State, x: nat, b: nat)
    requires b < |s.log|
  {
    x < b && s.log[x].stack == s.log[b].stack && x in s.freed
  }

  ghost predicate WordOk(s: State, b: nat, w: nat)
    requires b < |s.log|
  {
    WrittenBy(s, b, w, b) || exists x :: Before(s, x, b) && WrittenBy(s, b, w, x)
  }

  ghost predicate ThreadWords(s: State, b: nat)
    requires b < |s.log|
  {
    b !in s.freed ==> forall w | 1 <= w <= Depth(s, b) :: WordOk(s, b, w)
  }

  /** Of two stacks in one block, the one not given back is the younger. */
  predicate OrderOk(s: State, x: nat, b: nat)
    requires x < |s.log| && b < |s.log|
  {
    s.log[x].stack == s.log[b].stack && b < x ==> b in s.freed
  }

  ghost predicate Words(s: State) {
    && |s.mem.depth| == |s.log|
    && (forall x, b | 0 <= x < |s.log| && 0 <= b < |s.log| :: OrderOk(s, x, b))
    && (forall b | 0 <= b < |s.log| :: ThreadWords(s, b))
  }

  // ---------------------------------------------------------------- the kinds of steps

  /** The log grows at its end only, and no thread moves to another block. */
  ghost predicate SameBlocks(s: State, s': State) {
    && |s.log| <= |s'.log|
    && (forall b | 0 <= b < |s.log| :: s'.log[b].stack == s.log[b].stack)
    && (forall b | b in s.freed :: b in s'.freed)
  }

  /** The thread that writes in a step that creates none, and the depth of its stack after it. */
  function Write(s: State, a: Step): Option<(nat, nat)>
    requires Shape(s) && Enabled(s, a)
  {
    match a
    case Work(c, depth) => Some((Self(s, c), depth))
    case FetchRsp(c) =>
      if s.live[c].Some? then Some((Self(s, c), Depth(s, Self(s, c)) + SWITCH_WORDS)) else None
    case LoadRsp(c) =>
      var b := s.pc[c].target.owner;
      Some((b, if Depth(s, b) < SWITCH_WORDS then 0 else Depth(s, b) - SWITCH_WORDS))
    case _ => None
  }

  predicate Creates(a: Step) { a.CreateThread? || a.SpawnAndWait? }

  /** A step creates a stack, resizes one, or leaves the memory alone. */
  lemma StepKinds(s: State, a: Step)
    requires Shape(s) && Enabled(s, a)
    ensures var s' := Apply(s, a);
      && SameBlocks(s, s')
      && (Creates(a) ==> |s'.log| == |s.log| + 1 && s'.freed == s.freed && s'.log[|s.log|].stack == a.stack
                         && s'.mem == NewStack(s.mem, a.stack, |s.log|) && BlockFree(s, a.stack))
      && (!Creates(a) ==> |s'.log| == |s.log|)
      && (Write(s, a).Some? ==> s'.mem == Resized(s, Write(s, a).value.0, Write(s, a).value.1) && s'.freed == s.freed)
      && (!Creates(a) && Write(s, a).None? ==> s'.mem == s.mem)
  {
  }

  /** Whoever writes is in the log. */
  lemma WriterKnown(s: State, a: Step)
    requires Core(s) && Ledger(s) && Enabled(s, a) && Write(s, a).Some?
    ensures Write(s, a).value.0 < |s.log|
  {
    assert AtPc(s, a.c);
  }

  /** The words of b's block after x's stack was resized to d words. */
  lemma ResizedWord(s: State, s': State, x: nat, d: nat, b: nat, w: nat, y: nat)
    requires SameBlocks(s, s') && s'.mem == Resized(s, x, d) && x < |s.log| == |s.mem.depth| && b < |s.log|
    ensures WrittenBy(s', b, w, y) <==>
              if s.log[b].stack == s.log[x].stack && Depth(s, x) < w <= d then y == x else WrittenBy(s, b, w, y)
    ensures Depth(s', b) == if b == x then d else Depth(s, b)
  {
  }

  // ---------------------------------------------------------------- every word has a known writer

  lemma WriteKeeps(s: State, s': State, x: nat, d: nat)
    requires Words(s) && Blocks(s) && SameBlocks(s, s') && |s'.log| == |s.log| && s'.freed == s.freed
    requires x < |s.log| && s'.mem == Resized(s, x, d)
    ensures Words(s')
  {
    forall y, b | 0 <= y < |s'.log| && 0 <= b < |s'.log| ensures OrderOk(s', y, b) { assert OrderOk(s, y, b); }
    forall b | 0 <= b < |s'.log| ensures ThreadWords(s', b) {
      assert ThreadWords(s, b) && BlockOk(s, x, b) && OrderOk(s, x, b);
      if b !in s'.freed {
        forall w | 1 <= w <= Depth(s', b) ensures WordOk(s', b, w) { WriteKeepsWord(s, s', x, d, b, w); }
      }
    }
  }

  lemma WriteKeepsWord(s: State, s': State, x: nat, d: nat, b: nat, w: nat)
    requires SameBlocks(s, s') && |s'.log| == |s.log| == |s.mem.depth| && s'.freed == s.freed
    requires x < |s.log| && s'.mem == Resized(s, x, d) && b < |s.log| && b !in s.freed && 1 <= w <= Depth(s', b)
    requires ThreadWords(s, b) && BlockOk(s, x, b) && OrderOk(s, x, b)
    ensures WordOk(s', b, w)
  {
    ResizedWord(s, s', x, d, b, w, b);
    ResizedWord(s, s', x, d, b, w, x);
    if s.log[b].stack == s.log[x].stack && Depth(s, x) < w <= d {
      assert x == b || Before(s', x, b);
    } else {
      assert WordOk(s, b, w);
      if !WrittenBy(s, b, w, b) {
        var y :| Before(s, y, b) && WrittenBy(s, b, w, y);
        ResizedWord(s, s', x, d, b, w, y);
        assert Before(s', y, b);
      }
    }
  }

  /** What is not written stays; blocks that are given back only drop out of the claim. */
  lemma QuietKeepsWords(s: State, s': State)
    requires Words(s) && SameBlocks(s, s') && |s'.log| == |s.log| && s'.mem == s.mem
    ensures Words(s')
  {
    forall y, b | 0 <= y < |s'.log| && 0 <= b < |s'.log| ensures OrderOk(s', y, b) { assert OrderOk(s, y, b); }
    forall b | 0 <= b < |s'.log| ensures ThreadWords(s', b) {
      assert ThreadWords(s, b);
      if b !in s'.freed {
        forall w | 1 <= w <= Depth(s', b) ensures WordOk(s', b, w) {
          assert WordOk(s, b, w);
          if !WrittenBy(s, b, w, b) {
            var y :| Before(s, y, b) && WrittenBy(s, b, w, y);
            assert Before(s', y, b) && WrittenBy(s', b, w, y);
          }
        }
      }
    }
  }

  /** A new stack overwrites words nobody uses. */
  lemma NewStackWord(s: State, s': State, stack: nat, b: nat, w: nat, y: nat)
    requires SameBlocks(s, s') && |s.mem.depth| == |s.log| && |s'.log| == |s.log| + 1 && b < |s'.log|
    requires s'.mem == NewStack(s.mem, stack, |s.log|) && s'.log[|s.log|].stack == stack
    ensures WrittenBy(s', b, w, y) <==>
              if s'.log[b].stack == stack && 1 <= w <= SWITCH_WORDS then y == |s.log|
              else (s'.log[b].stack, w) in s.mem.writer && s.mem.writer[(s'.log[b].stack, w)] == y
    ensures Depth(s', b) == if b == |s.log| then SWITCH_WORDS else Depth(s, b)
  {
  }

  lemma CreateKeepsWords(s: State, s': State, stack: nat)
    requires Words(s) && SameBlocks(s, s') && |s'.log| == |s.log| + 1 && s'.freed == s.freed && BlockFree(s, stack)
    requires s'.mem == NewStack(s.mem, stack, |s.log|) && s'.log[|s.log|].stack == stack
    ensures Words(s')
  {
    forall y, b | 0 <= y < |s'.log| && 0 <= b < |s'.log| ensures OrderOk(s', y, b) {
      if y < |s.log| && b < |s.log| { assert OrderOk(s, y, b); }
    }
    forall b | 0 <= b < |s'.log| ensures ThreadWords(s', b) {
      if b !in s'.freed {
        forall w | 1 <= w <= Depth(s', b) ensures WordOk(s', b, w) {
          NewStackWord(s, s', stack, b, w, b);
          if b < |s.log| {
            assert ThreadWords(s, b) && WordOk(s, b, w);
            if !WrittenBy(s, b, w, b) {
              var y :| Before(s, y, b) && WrittenBy(s, b, w, y);
              NewStackWord(s, s', stack, b, w, y);
              assert Before(s', y, b);
            }
          }
        }
      }
    }
  }

  lemma StepKeepsWords(s: State, a: Step)
    requires Core(s) && Ledger(s) && Words(s) && Enabled(s, a)
    ensures Words(Apply(s, a))
  {
    var s' := Apply(s, a);
    StepKinds(s, a);
    if Creates(a) {
      CreateKeepsWords(s, s', a.stack);
    } else if Write(s, a).Some? {
      WriterKnown(s, a);
      WriteKeeps(s, s', Write(s, a).value.0, Write(s, a).value.1);
    } else {
      QuietKeepsWords(s, s');
    }
  }

  lemma InitialWords(n: nat, cores: nat)
    requires cores <= n && 0 < n
    ensures Words(Initial(n, cores))
  {
    var s := Initial(n, cores);
    forall b | 0 <= b < |s.log| ensures ThreadWords(s, b) {
      forall w | 1 <= w <= Depth(s, b) ensures WordOk(s, b, w) { assert WrittenBy(s, b, w, b); }
    }
  }

  lemma NextWords(s: State, s': State)
    requires Next(s, s')
    ensures Core(s) && Ledger(s) && Words(s) ==> Words(s')
  {
    var a :| Enabled(s, a) && s' == Apply(s, a);
    if Core(s) && Ledger(s) && Words(s) { StepKeepsWords(s, a); }
  }

  lemma RunWordsNext(run: seq<State>, n: nat, cores: nat, i: nat)
    requires cores <= n && 0 < n && IsRun(run, n, cores) && i + 1 < |run|
    ensures Words(run[i]) ==> Words(run[i + 1])
  {
    RunInvariant(run, n, cores, i);
    assert StepAt(run, i);
    NextWords(run[i], run[i + 1]);
  }

  /**
   In every state of every run, each word a thread uses was last written by the thread
   itself or by one whose stack had been the same block and was given back before.
   */
  lemma {:induction false} RunWords(run: seq<State>, n: nat, cores: nat, i: nat)
    requires cores <= n && 0 < n && IsRun(run, n, cores) && i < |run|
    ensures Words(run[i])
  {
    if i == 0 {
      InitialWords(n, cores);
    } else {
      RunWords(run, n, cores, i - 1);
      RunWordsNext(run, n, cores, i - 1);
    }
  }

  // ---------------------------------------------------------------- which steps do damage

  /**
   The step pushes the registers of a core on the block of b, where it has no business any
   more, at a depth that b is using.
   */
  predicate Damages(s: State, a: Step, b: nat)
    requires Shape(s) && Enabled(s, a) && b < |s.log|
  {
    && a.FetchRsp? && s.live[a.c].Some? && Self(s, a.c) < |s.log| && Self(s, a.c) != b
    && s.log[Self(s, a.c)].stack == s.log[b].stack && Depth(s, Self(s, a.c)) < Depth(s, b)
  }

  lemma InSlotNotFreed(s: State, t: nat)
    requires Shape(s) && Stacks(s) && t < |s.table.threads| && Occupies(s, t) && s.table.threads[t].birth < |s.log|
    ensures s.table.threads[t].birth !in s.freed
  {
    assert StackOk(s, s.table.threads[t].birth) && InSlot(s, s.table.threads[t].birth);
  }

  /** A thread that computes, or is loaded, has not given its stack back. */
  lemma WriterHoldsStack(s: State, a: Step)
    requires Core(s) && Ledger(s) && Enabled(s, a) && (a.Work? || a.LoadRsp?)
    ensures Write(s, a).value.0 < |s.log| && Write(s, a).value.0 !in s.freed
  {
    assert AtPc(s, a.c);
    InSlotNotFreed(s, s.table.current[a.c]);
  }

  /** A core that does damage has freed the stack it stands on and not yet left it. */
  lemma DamageIsInWindow(s: State, a: Step, b: nat)
    requires Core(s) && Ledger(s) && Words(s) && Enabled(s, a) && b < |s.log| && b !in s.freed && Damages(s, a, b)
    ensures s.pc[a.c] == Fetch(-1) && Before(s, Self(s, a.c), b)
  {
    var x := Self(s, a.c);
    assert BlockOk(s, x, b) && OrderOk(s, x, b);
    OnFreedStack(s, a.c);
  }

  /** A resize by x leaves b's words b's own exactly when x is b, or elsewhere, or below them. */
  lemma ResizeDamages(s: State, s': State, x: nat, d: nat, b: nat)
    requires SameBlocks(s, s') && s'.mem == Resized(s, x, d) && x < |s.log| == |s.mem.depth| && b < |s.log|
    requires OwnWords(s, b)
    ensures OwnWords(s', b) <==>
              x == b || s.log[x].stack != s.log[b].stack || d <= Depth(s, x) || Depth(s, b) <= Depth(s, x)
  {
    forall w, y | 1 <= w <= Depth(s', b)
      ensures WrittenBy(s', b, w, y) <==>
                if s.log[b].stack == s.log[x].stack && Depth(s, x) < w <= d then y == x else WrittenBy(s, b, w, y)
    {
      ResizedWord(s, s', x, d, b, w, y);
    }
    ResizedWord(s, s', x, d, b, 0, 0);
    if x != b && s.log[x].stack == s.log[b].stack && Depth(s, x) < d && Depth(s, x) < Depth(s, b) {
      assert !WrittenBy(s', b, Depth(s, x) + 1, b);
    }
  }

  lemma CreateSpares(s: State, s': State, stack: nat, b: nat)
    requires SameBlocks(s, s') && |s.mem.depth| == |s.log| && |s'.log| == |s.log| + 1 && BlockFree(s, stack)
    requires s'.mem == NewStack(s.mem, stack, |s.log|) && s'.log[|s.log|].stack == stack
    requires b < |s.log| && b !in s.freed && OwnWords(s, b)
    ensures OwnWords(s', b)
  {
    forall w | 1 <= w <= Depth(s', b) ensures WrittenBy(s', b, w, b) {
      NewStackWord(s, s', stack, b, w, b);
      assert WrittenBy(s, b, w, b);
    }
  }

  /** Of the steps that leave thread b its stack, exactly these put another thread's word into it. */
  lemma DamagingStep(s: State, a: Step, b: nat)
    requires Core(s) && Ledger(s) && Words(s) && Enabled(s, a)
    requires b < |s.log| && b !in Apply(s, a).freed && OwnWords(s, b)
    ensures b < |Apply(s, a).log| && (OwnWords(Apply(s, a), b) <==> !Damages(s, a, b))
  {
    var s' := Apply(s, a);
    StepKinds(s, a);
    if Creates(a) {
      CreateSpares(s, s', a.stack, b);
    } else if Write(s, a).Some? {
      var x, d := Write(s, a).value.0, Write(s, a).value.1;
      WriterKnown(s, a);
      if !a.FetchRsp? { WriterHoldsStack(s, a); }
      assert BlockOk(s, x, b);
      ResizeDamages(s, s', x, d, b);
    } else {
      forall w | 1 <= w <= Depth(s', b) ensures WrittenBy(s', b, w, b) { assert WrittenBy(s, b, w, b); }
    }
  }

  // ---------------------------------------------------------------- stacks nobody else is on

  /** No core but b's own is at work in b's block. */
  ghost predicate Alone(s: State, b: nat)
    requires Shape(s) && b < |s.log|
  {
    forall c | 0 <= c < |s.pc| && OnStack(s, c) && Self(s, c) < |s.log| && s.log[Self(s, c)].stack == s.log[b].stack ::
      Self(s, c) == b
  }

  ghost predicate Undisturbed(s: State, b: nat)
    requires Shape(s) && b < |s.log|
  {
    b !in s.freed ==> Alone(s, b) && OwnWords(s, b)
  }

  lemma StaysAlone(s: State, a: Step, b: nat)
    requires Core(s) && Ledger(s) && Words(s) && Enabled(s, a) && Shape(Apply(s, a))
    requires b < |s.log| && b !in Apply(s, a).freed && Alone(s, b)
    ensures b < |Apply(s, a).log| && Alone(Apply(s, a), b)
  {
    var s' := Apply(s, a);
    StepKinds(s, a);
    forall c | 0 <= c < |s'.pc| && OnStack(s', c) && Self(s', c) < |s'.log| && s'.log[Self(s', c)].stack == s'.log[b].stack
      ensures Self(s', c) == b
    {
      if a == LoadRsp(c) {
        WriterHoldsStack(s, a);
        assert BlockOk(s, Self(s', c), b);
      } else {
        StepKeepsOwner(s, a, c);
        assert s.live[c].Some? ==> Self(s, c) < |s.log| by { StandsKnown(s, c); }
      }
    }
  }

  /** Cores change stacks by loading a stack pointer only. */
  lemma StepKeepsOwner(s: State, a: Step, c: nat)
    requires Shape(s) && Enabled(s, a) && c < |s.pc| && a != LoadRsp(c)
    ensures var s' := Apply(s, a); |s'.pc| == |s.pc| && |s'.live| == |s.live|
    ensures var s' := Apply(s, a); s'.live[c].Some? == s.live[c].Some? && Self(s', c) == Self(s, c)
    ensures var s' := Apply(s, a); s.pc[c].Jump? ==> s'.pc[c].Jump?
  {
  }

  lemma StandsKnown(s: State, c: nat)
    requires Core(s) && c < |s.pc| && s.live[c].Some? && !s.pc[c].Jump?
    ensures Self(s, c) < |s.log|
  {
    assert AtPc(s, c);
  }

  lemma StepUndisturbed(s: State, a: Step, b: nat)
    requires Core(s) && Ledger(s) && Words(s) && Enabled(s, a) && Shape(Apply(s, a)) && b < |s.log| && Undisturbed(s, b)
    ensures b < |Apply(s, a).log| && Undisturbed(Apply(s, a), b)
  {
    StepKinds(s, a);
    if b !in Apply(s, a).freed {
      StaysAlone(s, a, b);
      DamagingStep(s, a, b);
      assert a.FetchRsp? ==> !s.pc[a.c].Jump?;
    }
  }

  /** No core is still at work in a block that was given back. */
  ghost predicate Vacant(s: State, block: nat)
    requires Shape(s)
  {
    forall c | 0 <= c < |s.pc| && OnStack(s, c) && Self(s, c) < |s.log| :: s.log[Self(s, c)].stack != block
  }

  lemma BornUndisturbed(s: State, a: Step)
    requires Core(s) && Ledger(s) && Words(s) && Enabled(s, a) && Shape(Apply(s, a)) && Creates(a) && Vacant(s, a.stack)
    ensures var s' := Apply(s, a); |s'.log| == |s.log| + 1 && Undisturbed(s', |s.log|)
  {
    var s', b := Apply(s, a), |s.log|;
    StepKinds(s, a);
    forall w | 1 <= w <= Depth(s', b) ensures WrittenBy(s', b, w, b) { NewStackWord(s, s', a.stack, b, w, b); }
    forall c | 0 <= c < |s'.pc| && OnStack(s', c) && Self(s', c) < |s'.log| && s'.log[Self(s', c)].stack == a.stack
      ensures Self(s', c) == b
    {
      StepKeepsOwner(s, a, c);
    }
  }

  lemma NextUndisturbed(s: State, s': State, b: nat)
    requires Next(s, s') && Shape(s')
    ensures Core(s) && Ledger(s) && Words(s) && b < |s.log| && Undisturbed(s, b) ==> b < |s'.log| && Undisturbed(s', b)
  {
    var a :| Enabled(s, a) && s' == Apply(s, a);
    if Core(s) && Ledger(s) && Words(s) && b < |s.log| && Undisturbed(s, b) { StepUndisturbed(s, a, b); }
  }

  lemma RunUndisturbed(run: seq<State>, n: nat, cores: nat, j: nat, b: nat)
    requires cores <= n && 0 < n && IsRun(run, n, cores) && j + 1 < |run|
    ensures Shape(run[j]) && Shape(run[j + 1])
    ensures b < |run[j].log| && Undisturbed(run[j], b) ==> b < |run[j + 1].log| && Undisturbed(run[j + 1], b)
  {
    RunInvariant(run, n, cores, j);
    RunInvariant(run, n, cores, j + 1);
    RunWords(run, n, cores, j);
    assert StepAt(run, j);
    NextUndisturbed(run[j], run[j + 1], b);
  }

  lemma RunBorn(run: seq<State>, n: nat, cores: nat, i: nat, a: Step)
    requires cores <= n && 0 < n && IsRun(run, n, cores) && i + 1 < |run|
    requires Shape(run[i]) && Enabled(run[i], a) && run[i + 1] == Apply(run[i], a) && Creates(a) && Vacant(run[i], a.stack)
    ensures Shape(run[i + 1]) && |run[i + 1].log| == |run[i].log| + 1 && Undisturbed(run[i + 1], |run[i].log|)
  {
    RunInvariant(run, n, cores, i);
    RunInvariant(run, n, cores, i + 1);
    RunWords(run, n, cores, i);
    BornUndisturbed(run[i], a);
  }

  /**
   A thread whose stack block no other core was at work in when it was created never has a
   word of its stack written by anyone else, for as long as it lives.
   */
  lemma {:induction false} IntactWhenBornAlone(run: seq<State>, n: nat, cores: nat, i: nat, a: Step, j: nat)
    requires cores <= n && 0 < n && IsRun(run, n, cores) && i < j < |run|
    requires Shape(run[i]) && Enabled(run[i], a) && run[i + 1] == Apply(run[i], a) && Creates(a) && Vacant(run[i], a.stack)
    ensures Shape(run[j]) && |run[i].log| < |run[j].log| && Undisturbed(run[j], |run[i].log|)
  {
    if j == i + 1 {
      RunBorn(run, n, cores, i, a);
    } else {
      IntactWhenBornAlone(run, n, cores, i, a, j - 1);
      RunUndisturbed(run, n, cores, j - 1, |run[i].log|);
    }
  }

  // ---------------------------------------------------------------- what a resumed thread pops

  /** Nobody computes as the thread of slot t: it has pushed its registers and not popped them. */
  predicate Paused(s: State, t: nat)
    requires Shape(s) && t < |s.table.threads|
  {
    var r := s.table.threads[t].runningOn;
    || !(0 <= r < |s.pc|)
    || (s.table.current[r] == t && (s.pc[r].Reap? || s.pc[r].Fetch? || s.pc[r].Save? || s.pc[r].Release? || s.pc[r].Jump?))
    || (Leaving(s.pc[r]) == t && (s.pc[r].Save? || s.pc[r].Release?))
  }

  predicate SavedOk(s: State, t: nat)
    requires Shape(s) && t < |s.table.threads|
  {
    s.table.threads[t].state.Active? && Paused(s, t) ==> Depth(s, s.table.threads[t].birth) >= SWITCH_WORDS
  }

  ghost predicate AllSaved(s: State)
    requires Shape(s)
  {
    forall t | 0 <= t < |s.table.threads| :: SavedOk(s, t)
  }

  /** Only a thread that computes or is loaded gets a shallower stack. */
  lemma DepthAfter(s: State, a: Step, b: nat)
    requires Shape(s) && Enabled(s, a) && |s.mem.depth| == |s.log| && b < |s.log|
    ensures (Write(s, a).Some? ==> Write(s, a).value.0 != b) || a.FetchRsp? ==> Depth(Apply(s, a), b) >= Depth(s, b)
    ensures a.FetchRsp? && s.live[a.c].Some? && Self(s, a.c) == b ==> Depth(Apply(s, a), b) >= SWITCH_WORDS
  {
    StepKinds(s, a);
  }

  lemma SavedWrite(s: State, a: Step, t: nat)
    requires Core(s) && Ledger(s) && Words(s) && AllSaved(s) && Enabled(s, a) && (a.Work? || a.LoadRsp?)
    requires Shape(Apply(s, a)) && t < |s.table.threads| == |Apply(s, a).table.threads|
    ensures SavedOk(Apply(s, a), t)
  {
    assert AtPc(s, a.c) && SavedOk(s, t) && ClaimOk(s, a.c, s.table.current[a.c]) && FlagOk(s, t);
    if s.table.threads[t].state.Active? { DepthAfter(s, a, s.table.threads[t].birth); }
  }

  lemma SavedFetch(s: State, a: Step, t: nat)
    requires Core(s) && Ledger(s) && Words(s) && AllSaved(s) && Enabled(s, a) && a.FetchRsp?
    requires Shape(Apply(s, a)) && t < |s.table.threads| == |Apply(s, a).table.threads|
    ensures SavedOk(Apply(s, a), t)
  {
    assert AtPc(s, a.c) && SavedOk(s, t) && ClaimOk(s, a.c, t) && FlagOk(s, t);
    if s.table.threads[t].state.Active? { DepthAfter(s, a, s.table.threads[t].birth); }
  }

  lemma SavedCreate(s: State, a: Step, t: nat)
    requires Core(s) && Ledger(s) && Words(s) && AllSaved(s) && Enabled(s, a) && Creates(a)
    requires Shape(Apply(s, a)) && t < |s.table.threads| == |Apply(s, a).table.threads|
    ensures SavedOk(Apply(s, a), t)
  {
    StepKinds(s, a);
    FirstUnusedIsFirst(s.table.threads, 0);
    assert SavedOk(s, t) && FlagOk(s, t);
    if t != FirstUnused(s.table.threads, 0) && s.table.threads[t].state.Active? {
      DepthAfter(s, a, s.table.threads[t].birth);
    }
  }

  lemma SavedCommit(s: State, c: nat, next: nat, t: nat)
    requires Core(s) && AllSaved(s) && c < |s.pc| && s.pc[c].Scan? && next < |s.table.threads| && MaySwitchTo(s, c, next)
    requires Shape(DoCommit(s, c, next)) && t < |s.table.threads| == |DoCommit(s, c, next).table.threads|
    ensures SavedOk(DoCommit(s, c, next), t)
  {
    assert AtPc(s, c) && SavedOk(s, t) && ClaimOk(s, c, t) && FlagOk(s, t);
  }

  lemma SavedScan(s: State, a: Step, t: nat)
    requires Core(s) && AllSaved(s) && Enabled(s, a) && a.ScanOne?
    requires Shape(Apply(s, a)) && t < |s.table.threads| == |Apply(s, a).table.threads|
    ensures SavedOk(Apply(s, a), t)
  {
    var c, n := a.c, |s.table.threads|;
    var i := s.pc[c].round;
    assert AtPc(s, c);
    if i <= n && Ready(s.table.threads[ScanSlot(s.table.current[c], i, n)]) {
      assert FlagOk(s, ScanSlot(s.table.current[c], i, n));
      SavedCommit(s, c, ScanSlot(s.table.current[c], i, n), t);
    } else if i > n && (s.pc[c].starting || PrevIsZombie(s.table, c)) {
      IdleIsFree(s, c);
      SavedCommit(s, c, s.table.idle[c], t);
    } else {
      assert SavedOk(s, t) && ClaimOk(s, c, t) && FlagOk(s, t);
    }
  }

  lemma SavedQuiet(s: State, a: Step, t: nat)
    requires Core(s) && AllSaved(s) && Enabled(s, a) && !Creates(a) && Write(s, a).None? && !a.ScanOne? && !a.FetchRsp?
    requires Shape(Apply(s, a)) && t < |s.table.threads| == |Apply(s, a).table.threads|
    ensures SavedOk(Apply(s, a), t)
  {
    assert AtPc(s, a.c) && SavedOk(s, t) && ClaimOk(s, a.c, t) && FlagOk(s, t);
  }

  lemma StepSaved(s: State, a: Step)
    requires Core(s) && Ledger(s) && Words(s) && Enabled(s, a) && Shape(Apply(s, a))
    ensures AllSaved(s) ==> AllSaved(Apply(s, a))
  {
    StepSize(s, a);
    if AllSaved(s) {
      forall t | 0 <= t < |Apply(s, a).table.threads| ensures SavedOk(Apply(s, a), t) {
        if Creates(a) { SavedCreate(s, a, t); }
        else if a.FetchRsp? { SavedFetch(s, a, t); }
        else if a.Work? || a.LoadRsp? { SavedWrite(s, a, t); }
        else if a.ScanOne? { SavedScan(s, a, t); }
        else { SavedQuiet(s, a, t); }
      }
    }
  }

  lemma NextSaved(s: State, s': State)
    requires Next(s, s') && Shape(s')
    ensures Core(s) && Ledger(s) && Words(s) && AllSaved(s) ==> AllSaved(s')
  {
    var a :| Enabled(s, a) && s' == Apply(s, a);
    if Core(s) && Ledger(s) && Words(s) { StepSaved(s, a); }
  }

  lemma RunSavedNext(run: seq<State>, n: nat, cores: nat, i: nat)
    requires cores <= n && 0 < n && IsRun(run, n, cores) && i + 1 < |run|
    ensures Shape(run[i]) && Shape(run[i + 1]) && (AllSaved(run[i]) ==> AllSaved(run[i + 1]))
  {
    RunInvariant(run, n, cores, i);
    RunInvariant(run, n, cores, i + 1);
    RunWords(run, n, cores, i);
    assert StepAt(run, i);
    NextSaved(run[i], run[i + 1]);
  }

  lemma {:induction false} RunSaved(run: seq<State>, n: nat, cores: nat, i: nat)
    requires cores <= n && 0 < n && IsRun(run, n, cores) && i < |run|
    ensures Shape(run[i]) && AllSaved(run[i])
  {
    if i == 0 {
      RunInvariant(run, n, cores, 0);
    } else {
      RunSaved(run, n, cores, i - 1);
      RunSavedNext(run, n, cores, i - 1);
    }
  }

  /** The seven words a core pops after it loads a stack pointer are on the stack of the thread it resumes. */
  lemma PopsAreThere(run: seq<State>, n: nat, cores: nat, i: nat, c: nat)
    requires cores <= n && 0 < n && IsRun(run, n, cores) && i < |run|
    requires Shape(run[i]) && Enabled(run[i], LoadRsp(c))
    ensures var b := run[i].pc[c].target.owner;
            b < |run[i].log| && b !in run[i].freed && Depth(run[i], b) >= SWITCH_WORDS
  {
    RunInvariant(run, n, cores, i);
    RunSaved(run, n, cores, i);
    WriterHoldsStack(run[i], LoadRsp(c));
    var s := run[i];
    assert AtPc(s, c) && SavedOk(s, s.table.current[c]) && ClaimOk(s, c, s.table.current[c]);
  }

  /**
   When a thread that was created in a block nobody was at work in is resumed, its whole
   stack, the words about to be popped included, is as it left it.
   */
  lemma ResumesIntact(run: seq<State>, n: nat, cores: nat, i: nat, a: Step, j: nat, c: nat)
    requires cores <= n && 0 < n && IsRun(run, n, cores) && i < j < |run|
    requires Shape(run[i]) && Enabled(run[i], a) && run[i + 1] == Apply(run[i], a) && Creates(a) && Vacant(run[i], a.stack)
    requires Shape(run[j]) && Enabled(run[j], LoadRsp(c)) && run[j].pc[c].target.owner == |run[i].log|
    ensures var b := |run[i].log|; b < |run[j].log| && Depth(run[j], b) >= SWITCH_WORDS && OwnWords(run[j], b)
  {
    PopsAreThere(run, n, cores, j, c);
    IntactWhenBornAlone(run, n, cores, i, a, j);
  }
}
