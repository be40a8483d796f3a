/** Theorems about every run of the scheduler. */
module SchedulerRuns {
  import opened Options
  import opened SchedulerSpec
  import opened SchedulerInvariant
  import opened Ring

  // ---------- runs keep the invariant ----------

  /** The state init_scheduler leaves: idle is running, and the cleaner is paused although its tag says READY. */
  ghost predicate Init(s: Sched) {
    && s.current == s.idle == 0 && s.cleaner == s.lastId == 1
    && s.state == map[0 := RUNNING, 1 := READY]
    && s.expiry.Keys == {0, 1} && s.depth == map[0 := 0, 1 := 1]
    && s.ready == [] && s.paused == [1] && s.sleeping == [] && s.terminated == []
    && s.postpone == 0 && !s.flag && s.irq == 0 && s.slice == TIME_SLICE_LENGTH
  }

  /** A run of the system from boot; nothing is assumed of its states beyond the caller's side of each call. */
  ghost predicate Run(states: seq<Sched>, ops: seq<Op>) {
    && |states| == |ops| + 1 && Init(states[0])
    && forall k :: 0 <= k < |ops| ==>
         Enabled(states[k], ops[k]) && states[k + 1] == Apply(states[k], ops[k])
  }

  lemma InitOk(s: Sched)
    requires Init(s)
    ensures Inv(s)
  {
  }

  lemma {:induction false} InvAlways(states: seq<Sched>, ops: seq<Op>, n: nat)
    requires Run(states, ops) && n <= |ops|
    ensures Inv(states[n])
  {
    if n == 0 {
      InitOk(states[0]);
    } else {
      InvAlways(states, ops, n - 1);
      StepKeeps(states[n - 1], ops[n - 1]);
    }
  }

  // ---------- the task partition ----------

  ghost function Count(ring: seq<TaskId>, t: TaskId): nat {
    multiset(ring)[t]
  }

  /** How many places a task has: running, waiting for a lock, or a position on one of the four rings. */
  ghost function Places(s: Sched, t: TaskId): nat
    requires t in s.state
  {
    (if s.state[t] == RUNNING then 1 else 0) + (if s.state[t] == WAITING_FOR_LOCK then 1 else 0)
    + Count(s.ready, t) + Count(s.paused, t) + Count(s.sleeping, t) + Count(s.terminated, t)
  }

  lemma {:induction false} CountOnce(ring: seq<TaskId>, t: TaskId)
    requires Distinct(ring)
    ensures Count(ring, t) == if t in ring then 1 else 0
  {
    if ring != [] {
      PopHead(ring);
      assert ring == [ring[0]] + ring[1..];
      CountOnce(ring[1..], t);
    }
  }

  /** At any time of any run, every live task but idle is in exactly one place, and idle is on no ring. */
  lemma ExactlyOnePlace(states: seq<Sched>, ops: seq<Op>, n: nat, t: TaskId)
    requires Run(states, ops) && n <= |ops| && t in states[n].state
    ensures Places(states[n], t) == 1
    ensures states[n].state[t] == RUNNING ==> t == states[n].current || t == states[n].idle
    ensures t == states[n].current && states[n].state[t] != RUNNING ==> states[n].flag && states[n].postpone > 0
  {
    var s := states[n];
    InvAlways(states, ops, n);
    CountOnce(s.ready, t);
    CountOnce(s.paused, t);
    CountOnce(s.sleeping, t);
    CountOnce(s.terminated, t);
  }

  // ---------- lock hand-over ----------

  /** The state in which an unlock_stuff enters schedule, if it does. */
  ghost function DischargePoint(s: Sched): Option<Sched> {
    if s.postpone == 1 && s.flag then Some(s.(postpone := 0, flag := false)) else None
  }

  /** The state in which a step ends its own critical section, if it has one. */
  ghost function BeforeUnlock(s: Sched, op: Op): (r: Option<Sched>)
    requires Enabled(s, op)
  {
    match op
    case OpUnlockStuff => Some(s)
    case OpSleepUntil(when, now) =>
      var s1 := LockStuff(s);
      Some(if when < now then s1 else Block(s1.(expiry := s1.expiry[s1.current := when]), SLEEPING))
    case OpTerminate => Some(Block(Unblock(LockStuff(s), s.cleaner), TERMINATED))
    case OpCleanWork => Some(Block(Drain(LockStuff(s)), PAUSED))
    case _ => None
  }

  lemma BeforeUnlockOk(s: Sched, op: Op)
    requires Inv(s) && Enabled(s, op)
    requires op.OpUnlockStuff? || op.OpSleepUntil? || op.OpTerminate? || op.OpCleanWork?
    ensures BeforeUnlock(s, op).Some?
    ensures var u := BeforeUnlock(s, op).value;
            && Inv(u) && u.current == s.current && Apply(s, op) == UnlockStuff(u)
            && (op.OpUnlockStuff? ==> u == s)
            && (!op.OpUnlockStuff? ==> u.irq == u.postpone == s.postpone + 1)
  {
    match op
    case OpSleepUntil(when, now) => SleepPoint(s, when, now);
    case OpTerminate => TerminatePoint(s);
    case OpCleanWork => CleanPoint(s);
    case _ =>
  }

  /** u is what a step that locked in s has before its unlock_stuff. */
  ghost predicate LockedIn(s: Sched, u: Sched) {
    Inv(u) && u.current == s.current && u.irq == u.postpone == s.postpone + 1
  }

  lemma SleepPoint(s: Sched, when: nat, now: nat)
    requires Inv(s) && Enabled(s, OpSleepUntil(when, now))
    ensures LockedIn(s, BeforeUnlock(s, OpSleepUntil(when, now)).value)
  {
    LockStuffKeeps(s);
    var s1 := LockStuff(s);
    if when >= now {
      BlockKeeps(s1.(expiry := s1.expiry[s1.current := when]), SLEEPING);
    }
  }

  lemma TerminatePoint(s: Sched)
    requires Inv(s) && Enabled(s, OpTerminate)
    ensures LockedIn(s, BeforeUnlock(s, OpTerminate).value)
  {
    LockStuffKeeps(s);
    UnblockKeeps(LockStuff(s), s.cleaner);
    BlockKeeps(Unblock(LockStuff(s), s.cleaner), TERMINATED);
  }

  lemma CleanPoint(s: Sched)
    requires Inv(s) && Enabled(s, OpCleanWork)
    ensures LockedIn(s, BeforeUnlock(s, OpCleanWork).value)
  {
    LockStuffKeeps(s);
    DrainKeeps(LockStuff(s));
    BlockKeeps(Drain(LockStuff(s)), PAUSED);
  }

  /** The state in which a step enters schedule with switches allowed, if it does. */
  ghost function SwitchPoint(s: Sched, op: Op): (r: Option<Sched>)
    requires Enabled(s, op)
  {
    match op
    case OpBlock(reason) => if s.current != s.idle && s.postpone == 0 then Some(Enlist(Lock(s), reason)) else None
    case OpTick(now) =>
      var s1 := WakeDue(Lock(s), now);
      if s1.ready != [] && s1.slice <= 1 then Some(s1) else None
    case _ =>
      match BeforeUnlock(s, op)
      case Some(u) => DischargePoint(u)
      case None => None
  }

  /**
   * Whenever schedule may switch, the interrupt counter is exactly 1 and the postpone counter 0;
   * the step then ends with the one unlock that the task switched to owes.
   */
  lemma SwitchAtDepthOne(s: Sched, op: Op)
    requires Inv(s) && Enabled(s, op) && SwitchPoint(s, op).Some?
    ensures var p := SwitchPoint(s, op).value;
            p.irq == 1 && p.postpone == 0 && Apply(s, op) == Unlock(Schedule(p))
  {
    if op.OpUnlockStuff? || op.OpSleepUntil? || op.OpTerminate? || op.OpCleanWork? {
      BeforeUnlockOk(s, op);
    }
  }

  /** In all other steps the running task stays. */
  lemma NoPointNoSwitch(s: Sched, op: Op)
    requires Inv(s) && Enabled(s, op) && SwitchPoint(s, op).None?
    ensures Apply(s, op).current == s.current
  {
    if op.OpUnlockStuff? || op.OpSleepUntil? || op.OpTerminate? || op.OpCleanWork? {
      BeforeUnlockOk(s, op);
    }
  }

  /** No switch while switches are postponed, except by the unlock_stuff that ends the postponement. */
  lemma NoSwitchWhilePostponed(s: Sched, op: Op)
    requires Inv(s) && Enabled(s, op) && s.postpone > 0
    requires !(op == OpUnlockStuff && s.postpone == 1)
    ensures Apply(s, op).current == s.current
  {
    if SwitchPoint(s, op).None? {
      NoPointNoSwitch(s, op);
    } else if op.OpUnlockStuff? || op.OpSleepUntil? || op.OpTerminate? || op.OpCleanWork? {
      BeforeUnlockOk(s, op);
    }
  }

  /** Why blocking must start unlocked: a switch to another task keeps the books exactly when the counter is 1. */
  lemma SwitchBalancedIff(s: Sched)
    requires Shape(s) && s.postpone == 0 && Schedule(s).current != s.current
    ensures Balanced(Schedule(s)) <==> s.irq == 1
  {
    var s' := Schedule(s);
    assert s'.depth == s.depth && s'.irq == s.irq;
    assert Owes(s', s'.current) == 1;
    if s.irq == 1 {
      forall t | t in s'.state && t != s'.current
        ensures Owes(s', t) == 1
      {
        assert t in s.state;
      }
    }
  }

  lemma UnlockBalancedIff(s: Sched)
    requires s.current in s.state
    ensures Balanced(Unlock(s)) <==> Balanced(s)
  {
    var s' := Unlock(s);
    assert forall t :: t in s.state && t != s.current ==> Owes(s', t) == Owes(s, t);
  }

  /** Hence block_task under d outer locks hands over a clean counter exactly when d is 0. */
  lemma BlockBalancedIff(s: Sched, reason: TaskState)
    requires Inv(s) && s.postpone == 0 && s.state[s.current] == RUNNING && BlockReason(reason)
    requires Block(s, reason).current != s.current
    ensures Balanced(Block(s, reason)) <==> s.irq == 0
  {
    LockKeeps(s);
    EnlistKeeps(Lock(s), reason);
    SwitchUnlocked(Enlist(Lock(s), reason));
  }

  lemma SwitchUnlocked(s: Sched)
    requires Shape(s) && s.postpone == 0 && Schedule(s).current != s.current
    ensures Balanced(Unlock(Schedule(s))) <==> s.irq == 1
  {
    SwitchBalancedIff(s);
    assert Schedule(s).current in Schedule(s).state;
    UnlockBalancedIff(Schedule(s));
  }
}
