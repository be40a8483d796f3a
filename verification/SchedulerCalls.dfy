/** What the scheduler's calls mean for the task that makes them, and what a time slice is worth. */
module SchedulerCalls {
  import opened SchedulerSpec
  import opened SchedulerInvariant
  import opened SchedulerRuns
  import opened SchedulerSleep
  import opened Ring

  // ---------- blocking ----------

  /** The ring a blocking task joins gets it at the tail; the others lose and gain nothing. */
  lemma BlockJoins(s: Sched, reason: TaskState)
    requires Inv(s) && Enabled(s, OpBlock(reason)) && s.current != s.idle
    ensures var s' := Block(s, reason);
            && s'.paused == (if reason == PAUSED then s.paused + [s.current] else s.paused)
            && s'.sleeping == (if reason == SLEEPING then s.sleeping + [s.current] else s.sleeping)
            && s'.terminated == (if reason == TERMINATED then s.terminated + [s.current] else s.terminated)
  {
    ScheduleFrame(Enlist(Lock(s), reason));
  }

  /**
   * The caller is tagged with its reason. With no switch postponed it gives the processor to the
   * head of the ready ring, or to idle; else it runs on until the postponement ends.
   */
  lemma BlockGivesWay(s: Sched, reason: TaskState)
    requires Inv(s) && Enabled(s, OpBlock(reason)) && s.current != s.idle
    ensures var s' := Block(s, reason);
            && Tag(s', s.current) == reason
            && (s.postpone == 0 ==> s'.current != s.current)
            && (s.postpone == 0 && s.ready != [] ==> s'.current == s.ready[0] && s'.ready == s.ready[1..])
            && (s.postpone == 0 && s.ready == [] ==> s'.current == s.idle && s'.ready == [] && s'.slice == 0)
            && (s.postpone > 0 ==> s'.current == s.current && s'.ready == s.ready && s'.flag)
  {
    BlockedState(s, reason);
  }

  lemma BlockedState(s: Sched, reason: TaskState)
    requires Inv(s) && Enabled(s, OpBlock(reason)) && s.current != s.idle
    ensures var p := Enlist(Lock(s), reason);
            && p.ready == s.ready && p.postpone == s.postpone && p.state == s.state[s.current := reason]
            && p.current == s.current && p.idle == s.idle && s.current !in s.ready
            && Block(s, reason) == Unlock(Schedule(p))
  {
  }

  /** A lock waiter is on no ring. */
  lemma WaiterIsOut(s: Sched)
    requires Inv(s) && Enabled(s, OpBlock(WAITING_FOR_LOCK)) && s.current != s.idle
    ensures var s' := Block(s, WAITING_FOR_LOCK);
            s.current !in s'.ready && s.current !in s'.paused && s.current !in s'.sleeping && s.current !in s'.terminated
  {
    BlockKeeps(s, WAITING_FOR_LOCK);
    BlockGivesWay(s, WAITING_FOR_LOCK);
  }

  // ---------- waiting for a lock ----------

  /** The task waits for a lock and does not run. */
  ghost predicate Waits(s: Sched, t: TaskId) {
    t in s.state && s.state[t] == WAITING_FOR_LOCK && t != s.current
  }

  lemma ScheduleSkipsWaiter(s: Sched, t: TaskId)
    requires Shape(s) && t in s.state && s.state[t] == WAITING_FOR_LOCK
    ensures var s' := Schedule(s);
            && t in s'.state && s'.state[t] == WAITING_FOR_LOCK
            && (t != s.current || s.postpone == 0 ==> s'.current != t)
  {
  }

  lemma BlockSkipsWaiter(s: Sched, reason: TaskState, t: TaskId)
    requires Inv(s) && BlockReason(reason) && s.irq == s.postpone && s.state[s.current] == RUNNING && Waits(s, t)
    ensures Waits(Block(s, reason), t)
  {
    if s.current != s.idle {
      LockKeeps(s);
      EnlistKeeps(Lock(s), reason);
      ScheduleSkipsWaiter(Enlist(Lock(s), reason), t);
    }
  }

  lemma UnlockStuffSkipsWaiter(s: Sched, t: TaskId)
    requires Inv(s) && s.postpone > 0 && (s.postpone == 1 && s.flag ==> s.irq == 1) && Waits(s, t)
    ensures Waits(UnlockStuff(s), t)
  {
    var s1 := s.(postpone := s.postpone - 1);
    if s1.postpone == 0 && s1.flag {
      ScheduleSkipsWaiter(s1.(flag := false), t);
    }
  }

  lemma UnblockSkipsWaiter(s: Sched, u: TaskId, t: TaskId)
    requires Inv(s) && Waits(s, t)
    ensures Waits(Unblock(s, u), t)
  {
  }

  lemma BeforeUnlockSkipsWaiter(s: Sched, op: Op, t: TaskId)
    requires Inv(s) && Enabled(s, op) && Waits(s, t) && BeforeUnlock(s, op).Some?
    ensures Waits(BeforeUnlock(s, op).value, t)
  {
    LockStuffKeeps(s);
    var s1 := LockStuff(s);
    match op
    case OpSleepUntil(when, now) =>
      if when >= now {
        BlockSkipsWaiter(s1.(expiry := s1.expiry[s1.current := when]), SLEEPING, t);
      }
    case OpTerminate =>
      UnblockKeeps(s1, s.cleaner);
      UnblockSkipsWaiter(s1, s.cleaner, t);
      BlockSkipsWaiter(Unblock(s1, s.cleaner), TERMINATED, t);
    case OpCleanWork =>
      DrainKeeps(s1);
      BlockSkipsWaiter(Drain(s1), PAUSED, t);
    case _ =>
  }

  lemma TickSkipsWaiter(s: Sched, now: nat, t: TaskId)
    requires Inv(s) && s.irq == 0 && Waits(s, t)
    ensures Waits(Tick(s, now), t)
  {
    LockKeeps(s);
    SplitMembers(s.sleeping, s.expiry, now);
    WakeDueKeeps(Lock(s), now);
    var s1 := WakeDue(Lock(s), now);
    if s1.ready != [] && s1.slice <= 1 {
      ScheduleSkipsWaiter(s1, t);
    }
  }

  /** Nothing modelled ends the wait. */
  lemma WaiterStays(s: Sched, op: Op, t: TaskId)
    requires Inv(s) && Enabled(s, op) && Waits(s, t)
    ensures Waits(Apply(s, op), t)
  {
    if op.OpUnlockStuff? || op.OpSleepUntil? || op.OpTerminate? || op.OpCleanWork? {
      BeforeUnlockOk(s, op);
      BeforeUnlockSkipsWaiter(s, op, t);
      UnlockStuffSkipsWaiter(BeforeUnlock(s, op).value, t);
    } else {
      match op
      case OpBlock(reason) => BlockSkipsWaiter(s, reason, t);
      case OpUnblock(u) => UnblockSkipsWaiter(s, u, t);
      case OpTick(now) => TickSkipsWaiter(s, now, t);
      case _ =>
    }
  }

  /** A lock waiter gives way at once, or when the switch postponed meanwhile is made. */
  lemma WaitStarts(s: Sched)
    requires Inv(s) && Enabled(s, OpBlock(WAITING_FOR_LOCK)) && s.current != s.idle && s.postpone == 0
    ensures Waits(Block(s, WAITING_FOR_LOCK), s.current)
  {
    BlockGivesWay(s, WAITING_FOR_LOCK);
  }

  lemma PostponedWaitStarts(s: Sched)
    requires Inv(s) && s.postpone == s.irq == 1 && s.state[s.current] == WAITING_FOR_LOCK
    ensures Waits(UnlockStuff(s), s.current)
  {
    ScheduleSkipsWaiter(s.(postpone := 0, flag := false), s.current);
  }

  lemma {:induction false} WaitsAlways(states: seq<Sched>, ops: seq<Op>, i: nat, n: nat, t: TaskId)
    requires Run(states, ops) && i <= n <= |ops| && Waits(states[i], t)
    ensures Waits(states[n], t)
    decreases n
  {
    if i < n {
      WaitsAlways(states, ops, i, n - 1, t);
      InvAlways(states, ops, n - 1);
      WaiterStays(states[n - 1], ops[n - 1], t);
    }
  }

  /** In a run, a task that waits for a lock never runs, is never ready, and is on no ring, ever after. */
  lemma WaiterNeverRuns(states: seq<Sched>, ops: seq<Op>, i: nat, n: nat, t: TaskId)
    requires Run(states, ops) && i <= n <= |ops| && Waits(states[i], t)
    ensures t != states[n].current
    ensures t !in states[n].ready && t !in states[n].paused && t !in states[n].sleeping && t !in states[n].terminated
  {
    WaitsAlways(states, ops, i, n, t);
    InvAlways(states, ops, n);
  }

  // ---------- other calls ----------

  /** nano_sleep_until with a time that has passed changes nothing. */
  lemma PastSleepReturns(s: Sched, when: nat, now: nat)
    requires Inv(s) && when < now
    ensures SleepUntil(s, when, now) == s
  {
    assert s.depth[s.current := Owes(s, s.current) + 1][s.current := s.depth[s.current]] == s.depth;
  }

  /** terminate_task readies the cleaner when it heads the paused ring: it is queued, or runs already. */
  lemma TerminateWakesCleaner(s: Sched)
    requires Inv(s) && Enabled(s, OpTerminate) && s.paused != [] && s.paused[0] == s.cleaner
    ensures var s' := Terminate(s);
            s.cleaner !in s'.paused && (s.cleaner in s'.ready || s.cleaner == s'.current)
  {
    var s1 := LockStuff(s);
    LockStuffKeeps(s);
    UnblockKeeps(s1, s.cleaner);
    CleanerWoken(s1);
    PostponedBlock(Unblock(s1, s.cleaner), TERMINATED);
    UnlockStuffServes(Block(Unblock(s1, s.cleaner), TERMINATED), s.cleaner);
  }

  lemma PostponedBlock(s: Sched, reason: TaskState)
    requires Inv(s) && Enabled(s, OpBlock(reason)) && s.postpone > 0 && reason != PAUSED
    ensures Inv(Block(s, reason)) && Block(s, reason).postpone == s.postpone
    ensures Block(s, reason).ready == s.ready && Block(s, reason).paused == s.paused
  {
    BlockKeeps(s, reason);
    if s.current != s.idle {
      BlockJoins(s, reason);
      BlockGivesWay(s, reason);
    }
  }

  lemma CleanerWoken(s: Sched)
    requires Inv(s) && s.paused != [] && s.paused[0] == s.cleaner
    ensures var s' := Unblock(s, s.cleaner); s.cleaner !in s'.paused && s.cleaner in s'.ready
  {
    PopHead(s.paused);
  }

  lemma UnlockStuffServes(s: Sched, t: TaskId)
    requires Inv(s) && s.postpone > 0 && t in s.ready
    ensures var s' := UnlockStuff(s); s'.paused == s.paused && (t in s'.ready || t == s'.current)
  {
    ScheduleFrame(s.(postpone := 0, flag := false));
    ScheduleServes(s.(postpone := 0, flag := false), t);
  }

  lemma ScheduleServes(s: Sched, t: TaskId)
    requires t in s.ready
    ensures t in Schedule(s).ready || t == Schedule(s).current
  {
    if s.postpone == 0 {
      var q := Requeued(s);
      assert t in q.ready && q.ready == [q.ready[0]] + q.ready[1..];
      assert Schedule(s).ready == q.ready[1..] && Schedule(s).current == q.ready[0];
    }
  }

  /** The cleaner's work ends with its caller at the tail of the paused ring and no terminated task left. */
  lemma CleanerPauses(s: Sched)
    requires Inv(s) && Enabled(s, OpCleanWork) && s.current != s.idle
    ensures CleanWork(s).paused == s.paused + [s.current] && CleanWork(s).terminated == []
    ensures Tag(CleanWork(s), s.current) == PAUSED && (s.postpone == 0 ==> CleanWork(s).current != s.current)
  {
    var s1 := Drain(LockStuff(s));
    DrainedMayPause(s);
    BlockKeeps(s1, PAUSED);
    BlockJoins(s1, PAUSED);
    BlockGivesWay(s1, PAUSED);
    PausedSwitchesAway(Block(s1, PAUSED));
  }

  lemma DrainedMayPause(s: Sched)
    requires Inv(s) && Enabled(s, OpCleanWork)
    ensures var s1 := Drain(LockStuff(s));
            && Inv(s1) && Enabled(s1, OpBlock(PAUSED)) && s1.paused == s.paused && s1.terminated == []
            && s1.current == s.current && s1.idle == s.idle && s1.postpone == s.postpone + 1
  {
    LockStuffKeeps(s);
    DrainKeeps(LockStuff(s));
  }

  lemma PausedSwitchesAway(s: Sched)
    requires Inv(s) && s.postpone > 0 && s.flag && s.state[s.current] == PAUSED && s.current in s.paused
    requires s.current != s.cleaner || s.current !in s.ready
    ensures var s' := UnlockStuff(s);
            && s'.paused == s.paused && s'.terminated == s.terminated && Tag(s', s.current) == PAUSED
            && (s.postpone == 1 ==> s'.current != s.current)
  {
    ScheduleFrame(s.(postpone := 0, flag := false));
  }

  /** A new task has the next id, is ready behind all others, and would not sleep past any tick. */
  lemma NewTaskIsLast(s: Sched, now: nat)
    ensures var s', t := Create(s), s.lastId + 1;
            && s'.ready == s.ready + [t] && Tag(s', t) == READY && Owes(s', t) == 1 && IsDue(t, s'.expiry, now)
  {
  }

  // ---------- time slices ----------

  /** The state after ticks at these times and nothing else. */
  function Ticked(s: Sched, times: seq<nat>): Sched {
    if times == [] then s else Tick(Ticked(s, times[..|times| - 1]), times[|times| - 1])
  }

  /** A tick with a task ready and more than one tick left takes one tick off the slice. */
  lemma TickCounts(s: Sched, now: nat)
    requires Inv(s) && s.irq == 0 && s.ready != [] && s.slice > 1
    ensures var s' := Tick(s, now);
            && Inv(s') && s'.irq == 0 && s'.current == s.current && s'.slice == s.slice - 1
            && s'.dispatches == s.dispatches && s.ready <= s'.ready
  {
    TickKeeps(s, now);
  }

  /** A tick with a task ready and at most one tick left dispatches the head of the ready ring. */
  lemma TickSwitches(s: Sched, now: nat)
    requires Inv(s) && s.irq == 0 && s.ready != [] && s.slice <= 1
    ensures var s' := Tick(s, now);
            s'.current == s.ready[0] && s'.slice == TIME_SLICE_LENGTH && s'.dispatches == s.dispatches + 1
  {
    LockKeeps(s);
    WakeDueKeeps(Lock(s), now);
  }

  lemma {:induction false} SliceCounts(s: Sched, times: seq<nat>)
    requires Inv(s) && s.irq == 0 && s.ready != [] && (times == [] || |times| < s.slice)
    ensures var s' := Ticked(s, times);
            && Inv(s') && s'.irq == 0 && s'.current == s.current && s'.slice == s.slice - |times|
            && s'.dispatches == s.dispatches && s.ready <= s'.ready
  {
    if times != [] {
      var front := times[..|times| - 1];
      SliceCounts(s, front);
      TickCounts(Ticked(s, front), times[|times| - 1]);
    }
  }

  /**
   * A slice is exact: with a task ready, the running task keeps the processor for all but the last of
   * its remaining ticks, and with that one the head of the ready ring gets it for a full slice.
   */
  lemma SliceIsExact(s: Sched, times: seq<nat>)
    requires Inv(s) && s.irq == 0 && s.ready != []
    ensures |times| < s.slice ==> Ticked(s, times).current == s.current && Ticked(s, times).dispatches == s.dispatches
    ensures |times| == (if s.slice == 0 then 1 else s.slice) ==>
              && Ticked(s, times).current == s.ready[0] && Ticked(s, times).dispatches == s.dispatches + 1
              && Ticked(s, times).slice == TIME_SLICE_LENGTH
  {
    if |times| < s.slice {
      SliceCounts(s, times);
    } else if |times| == (if s.slice == 0 then 1 else s.slice) {
      SliceEnds(s, times);
    }
  }

  lemma SliceEnds(s: Sched, times: seq<nat>)
    requires Inv(s) && s.irq == 0 && s.ready != [] && |times| == (if s.slice == 0 then 1 else s.slice)
    ensures var s' := Ticked(s, times);
            s'.current == s.ready[0] && s'.dispatches == s.dispatches + 1 && s'.slice == TIME_SLICE_LENGTH == 200
  {
    var front := times[..|times| - 1];
    SliceCounts(s, front);
    TickSwitches(Ticked(s, front), times[|times| - 1]);
  }

  /** With nobody ready and nobody due a tick leaves the slice and the running task alone. */
  lemma QuietTick(s: Sched, now: nat)
    requires Inv(s) && s.irq == 0 && s.ready == [] && forall t :: t in s.sleeping ==> !IsDue(t, s.expiry, now)
    ensures var s' := Tick(s, now); s'.current == s.current && s'.slice == s.slice && s'.ready == []
  {
    NobodyDue(s.sleeping, s.expiry, now);
    assert WakeDue(Lock(s), now).ready == [];
  }

  lemma NobodyDue(ring: seq<TaskId>, expiry: map<TaskId, nat>, now: nat)
    requires forall t :: t in ring ==> !IsDue(t, expiry, now)
    ensures Due(ring, expiry, now) == []
  {
    SplitMembers(ring, expiry, now);
    if Due(ring, expiry, now) != [] {
      assert Due(ring, expiry, now)[0] in Due(ring, expiry, now);
    }
  }

  /**
   * After a switch to idle the slice is 0, so a task that a tick wakes, or that is ready by then, is
   * dispatched by that very tick.
   */
  lemma WokenRunsAtOnce(s: Sched, now: nat)
    requires Inv(s) && s.irq == 0 && s.slice == 0
    requires s.ready != [] || exists t :: t in s.sleeping && IsDue(t, s.expiry, now)
    ensures var queue := s.ready + Due(s.sleeping, s.expiry, now);
            queue != [] && Tick(s, now).current == queue[0] && Tick(s, now).dispatches == s.dispatches + 1
  {
    SplitMembers(s.sleeping, s.expiry, now);
    LockKeeps(s);
    WakeDueKeeps(Lock(s), now);
  }
}
