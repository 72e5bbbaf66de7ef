/**
 The inductive invariant of the scheduler machine.
 */
module SchedulerInvariant {
  import opened Common
  import opened SchedulerTable
  import opened SchedulerMachine

  /** Core `c` still answers for slot `t`: it is its current thread, or one it has not finished leaving. */
  predicate Claims(s: State, c: nat, t: int)
    requires Shape(s) && c < |s.pc|
  {
    || s.table.current[c] == t
    || Leaving(s.pc[c]) == t
  }

  /** The slot a core is leaving alive, before it cleared that slot's flag; negative if none. */
  function Leaving(pc: Pc): int {
    match pc
    case Fetch(prev) => if prev < 0 then -2 else prev
    case Save(prev, _) => prev
    case Release(prev, _) => prev
    case _ => -2
  }

  predicate Occupies(s: State, t: nat)
    requires t < |s.table.threads|
  {
    !s.table.threads[t].state.Unused?
  }

  /** The context slot `t` has to be resumed from: its own stack, as far as it has run. */
  function Latest(s: State, t: nat): Context
    requires t < |s.table.threads| && s.table.threads[t].birth < |s.log|
  {
    Context(s.table.threads[t].birth, s.log[s.table.threads[t].birth].version)
  }

  /** Births are unique among occupied slots and known to the log. */
  predicate Births(s: State) {
    && (forall t | 0 <= t < |s.table.threads| && Occupies(s, t) :: s.table.threads[t].birth < |s.log|)
    && (forall t, u | 0 <= t < |s.table.threads| && 0 <= u < |s.table.threads| && Occupies(s, t) && Occupies(s, u) ::
          s.table.threads[t].birth == s.table.threads[u].birth ==> t == u)
  }

  /** running_on_core names exactly the core that answers for the slot. */
  predicate Flags(s: State)
    requires Shape(s)
  {
    && (forall t | 0 <= t < |s.table.threads| :: FlagOk(s, t))
    && (forall c, t | 0 <= c < |s.pc| && 0 <= t < |s.table.threads| :: ClaimOk(s, c, t))
  }

  predicate FlagOk(s: State, t: nat)
    requires Shape(s) && t < |s.table.threads|
  {
    var r := s.table.threads[t].runningOn;
    -1 <= r < |s.pc| && (r >= 0 ==> Occupies(s, t) && Claims(s, r, t))
  }

  predicate ClaimOk(s: State, c: nat, t: nat)
    requires Shape(s) && c < |s.pc| && t < |s.table.threads|
  {
    Claims(s, c, t) ==> s.table.threads[t].runningOn == c
  }

  /** Core `c` stands on the stack of slot `t`, as far as that thread has run. */
  predicate StandsOn(s: State, c: nat, t: int)
    requires Shape(s) && Births(s) && c < |s.pc|
  {
    && 0 <= t < |s.table.threads| && Occupies(s, t) && s.live[c] == Some(Latest(s, t))
  }

  /** Core `c` stands on no thread's stack: the boot stack, or that of a thread already gone. */
  predicate StandsOnNothingAlive(s: State, c: nat)
    requires Shape(s) && c < |s.pc|
  {
    s.live[c].Some? ==>
      && s.live[c].value.owner < |s.log|
      && forall t | 0 <= t < |s.table.threads| && Occupies(s, t) :: s.table.threads[t].birth != s.live[c].value.owner
  }

  predicate CurrentIs(s: State, c: nat, st: ThreadState)
    requires Shape(s) && c < |s.pc|
  {
    s.table.current[c] >= 0 && s.table.threads[s.table.current[c]].state == st
  }

  /** Each program point with what holds there. */
  predicate AtPc(s: State, c: nat)
    requires Shape(s) && Births(s) && c < |s.pc|
  {
    var cur := s.table.current[c];
    match s.pc[c]
    case Boot => cur == -1 && s.live[c].None?
    case Run => CurrentIs(s, c, Active) && StandsOn(s, c, cur)
    case Exiting => CurrentIs(s, c, Active) && StandsOn(s, c, cur) && !s.table.threads[cur].isIdle
    case Dead => CurrentIs(s, c, Zombie) && StandsOn(s, c, cur)
    case Scan(_, starting) =>
      && s.lock == Some(c)
      && (starting ==> cur == -1)
      && (if cur == -1 then s.live[c].None? else StandsOn(s, c, cur))
    case Reap(stack) =>
      && CurrentIs(s, c, Active) && s.table.threads[cur].rsp == Latest(s, cur)
      && StandsOnNothingAlive(s, c) && s.live[c].Some? && s.live[c].value.owner == stack
    case Fetch(prev) =>
      && CurrentIs(s, c, Active) && s.table.threads[cur].rsp == Latest(s, cur)
      && (if prev < 0 then StandsOnNothingAlive(s, c) else LeavesAlive(s, c, prev))
    case Save(prev, target) => CurrentIs(s, c, Active) && target == Latest(s, cur) && LeavesAlive(s, c, prev)
    case Release(prev, target) =>
      && CurrentIs(s, c, Active) && target == Latest(s, cur)
      && LeavesAlive(s, c, prev) && s.table.threads[prev].rsp == Latest(s, prev)
    case Jump(target) => CurrentIs(s, c, Active) && target == Latest(s, cur)
  }

  predicate LeavesAlive(s: State, c: nat, prev: int)
    requires Shape(s) && Births(s) && c < |s.pc|
  {
    && 0 <= prev < |s.table.threads| && prev != s.table.current[c]
    && s.table.threads[prev].state.Active? && StandsOn(s, c, prev)
  }

  predicate Pcs(s: State)
    requires Shape(s) && Births(s)
  {
    && (forall c | 0 <= c < |s.pc| :: AtPc(s, c))
    && (s.lock.Some? ==> s.pc[s.lock.value].Scan?)
  }

  /** A thread nobody runs can be resumed from exactly where it stopped. */
  predicate Resumable(s: State)
    requires Births(s)
  {
    forall t | 0 <= t < |s.table.threads| :: ResumeOk(s, t)
  }

  predicate ResumeOk(s: State, t: nat)
    requires Births(s) && t < |s.table.threads|
  {
    s.table.threads[t].state.Active? && s.table.threads[t].runningOn < 0 ==> s.table.threads[t].rsp == Latest(s, t)
  }

  /** A zombie is the current thread of the core its flag names, and that core is on its way to reap it. */
  predicate Zombies(s: State)
    requires Shape(s)
  {
    forall t | 0 <= t < |s.table.threads| :: ZombieOk(s, t)
  }

  predicate ZombieOk(s: State, t: nat)
    requires Shape(s) && t < |s.table.threads|
  {
    s.table.threads[t].state.Zombie? ==>
      var r := s.table.threads[t].runningOn;
      0 <= r < |s.pc| && s.table.current[r] == t && (s.pc[r].Dead? || s.pc[r].Scan?)
  }

  /** Every core's idle thread is alive, its own, and runs nowhere else. */
  predicate Idles(s: State)
    requires Shape(s)
  {
    && (forall c | 0 <= c < |s.pc| :: IdleOk(s, c))
    && (forall c, d | 0 <= c < |s.pc| && 0 <= d < |s.pc| :: IdleOwn(s, c, d))
  }

  predicate IdleOk(s: State, c: nat)
    requires Shape(s) && c < |s.pc|
  {
    s.table.threads[s.table.idle[c]].state.Active? && s.table.threads[s.table.idle[c]].isIdle
  }

  predicate IdleOwn(s: State, c: nat, d: nat)
    requires Shape(s) && c < |s.pc| && d < |s.pc|
  {
    Claims(s, d, s.table.idle[c]) || s.table.idle[d] == s.table.idle[c] ==> c == d
  }

  /** Two cores never stand on one stack, except for a core that has let go of it and only has the jump left. */
  predicate Exclusive(s: State)
    requires Shape(s)
  {
    forall c, d | 0 <= c < |s.pc| && 0 <= d < |s.pc| :: ApartOk(s, c, d)
  }

  predicate ApartOk(s: State, c: nat, d: nat)
    requires Shape(s) && c < |s.pc| && d < |s.pc|
  {
    c != d && OnStack(s, c) && OnStack(s, d) ==> s.live[c].value.owner != s.live[d].value.owner
  }

  predicate OnStack(s: State, c: nat)
    requires Shape(s) && c < |s.pc|
  {
    s.live[c].Some? && !s.pc[c].Jump?
  }

  predicate Core(s: State) {
    && Shape(s) && Births(s) && Flags(s) && Pcs(s) && Resumable(s) && Zombies(s) && Idles(s) && Exclusive(s)
    && s.table.activeCount == Occupied(s.table.threads)
  }
}
