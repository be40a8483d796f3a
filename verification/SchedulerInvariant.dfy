/** What every step of the scheduler keeps: each task has one place, and the lock counter belongs to its task. */
module SchedulerInvariant {
  import opened SchedulerSpec
  import opened Ring

  lemma PopHead(ring: seq<TaskId>)
    requires Distinct(ring) && ring != []
    ensures Distinct(ring[1..]) && ring[0] !in ring[1..]
    ensures forall t :: t in ring <==> t == ring[0] || t in ring[1..]
  {
    assert ring == [ring[0]] + ring[1..];
  }

  lemma PushTail(ring: seq<TaskId>, t: TaskId)
    requires Distinct(ring) && t !in ring
    ensures Distinct(ring + [t])
    ensures forall u :: u in ring + [t] <==> u == t || u in ring
  {
  }

  /** The counters and the time slice. */
  ghost predicate CountersOk(s: Sched) {
    && 0 <= s.postpone <= s.irq
    && (s.flag ==> s.postpone > 0)
    && s.slice <= TIME_SLICE_LENGTH
  }

  /** Each ring is free of duplicates and its tasks carry its tag; the cleaner may be paused with tag READY. */
  ghost predicate RingsOk(s: Sched)
    requires Able(s)
  {
    && Distinct(s.ready) && Distinct(s.paused) && Distinct(s.sleeping) && Distinct(s.terminated)
    && (forall t :: t in s.ready ==> s.state[t] == READY && t !in s.paused)
    && (forall t :: t in s.paused ==> s.state[t] == PAUSED || (t == s.cleaner && s.state[t] == READY))
    && (forall t :: t in s.sleeping ==> s.state[t] == SLEEPING)
    && (forall t :: t in s.terminated ==> s.state[t] == TERMINATED)
  }

  /** Every live task has a place, only the running and the idle task are tagged RUNNING, ids are below the counter. */
  ghost predicate TasksOk(s: Sched)
    requires Able(s)
  {
    && s.state[s.idle] == RUNNING && s.cleaner != s.idle
    && forall t :: t in s.state ==>
         && t <= s.lastId
         && (s.state[t] == RUNNING ==> t == s.current || t == s.idle)
         && (s.state[t] == RUNNING || s.state[t] == WAITING_FOR_LOCK
             || t in s.ready || t in s.paused || t in s.sleeping || t in s.terminated)
  }

  /** The lock counter is the running task's own depth, and every other task owes exactly one unlock. */
  ghost predicate Balanced(s: Sched) {
    && Owes(s, s.current) == s.irq
    && forall t :: t in s.state && t != s.current ==> Owes(s, t) == 1
  }

  /** Everything but the promise about the running task itself. */
  ghost predicate Shape(s: Sched) {
    Able(s) && CountersOk(s) && RingsOk(s) && TasksOk(s) && Balanced(s)
  }

  /** The running task is tagged RUNNING, unless a switch away from it is pending. */
  ghost predicate Inv(s: Sched) {
    Shape(s) && (s.state[s.current] != RUNNING ==> s.flag)
  }

  // ---------- the single actions ----------

  lemma LockKeeps(s: Sched)
    requires Shape(s)
    ensures Shape(Lock(s))
  {
  }

  lemma UnlockKeeps(s: Sched)
    requires Shape(s) && s.irq > s.postpone
    ensures Shape(Unlock(s))
  {
  }

  lemma EnlistRings(s: Sched, reason: TaskState)
    requires Shape(s) && BlockReason(reason) && s.state[s.current] == RUNNING && s.current != s.idle
    ensures Able(Enlist(s, reason)) && RingsOk(Enlist(s, reason))
  {
    match reason
    case PAUSED => PushTail(s.paused, s.current);
    case SLEEPING => PushTail(s.sleeping, s.current);
    case TERMINATED => PushTail(s.terminated, s.current);
    case _ =>
  }

  lemma EnlistKeeps(s: Sched, reason: TaskState)
    requires Shape(s) && BlockReason(reason) && s.state[s.current] == RUNNING && s.current != s.idle
    ensures Shape(Enlist(s, reason))
  {
    EnlistRings(s, reason);
    EnlistTasks(s, reason);
    EnlistBalanced(s, reason);
  }

  lemma EnlistTasks(s: Sched, reason: TaskState)
    requires Shape(s) && BlockReason(reason) && s.state[s.current] == RUNNING && s.current != s.idle
    requires Able(Enlist(s, reason))
    ensures TasksOk(Enlist(s, reason))
  {
    var s' := Enlist(s, reason);
    forall t | t in s'.state
      ensures t <= s'.lastId && (s'.state[t] == RUNNING ==> t == s'.current || t == s'.idle)
      ensures s'.state[t] == RUNNING || s'.state[t] == WAITING_FOR_LOCK
              || t in s'.ready || t in s'.paused || t in s'.sleeping || t in s'.terminated
    {
      assert t != s.current ==> s'.state[t] == s.state[t];
    }
  }

  lemma EnlistBalanced(s: Sched, reason: TaskState)
    requires Shape(s) && BlockReason(reason)
    ensures CountersOk(Enlist(s, reason)) && Balanced(Enlist(s, reason))
  {
    assert Enlist(s, reason).depth == s.depth && Enlist(s, reason).state.Keys == s.state.Keys;
  }

  /** The switch itself: it needs the counter to be exactly 1 whenever it changes the running task. */
  lemma ScheduleKeeps(s: Sched)
    requires Shape(s) && (s.postpone == 0 ==> s.irq == 1)
    ensures Inv(Schedule(s))
    ensures Schedule(s).irq == s.irq && Schedule(s).postpone == s.postpone
    ensures s.postpone > 0 ==> Schedule(s) == s.(flag := true)
    ensures s.postpone == 0 ==> Schedule(s).state[Schedule(s).current] == RUNNING
  {
    if s.postpone == 0 && s.ready != [] {
      RequeuedKeeps(s);
      DispatchKeeps(Requeued(s));
    }
  }

  lemma RequeuedKeeps(s: Sched)
    requires Shape(s)
    ensures Shape(Requeued(s)) && (Requeued(s).state[s.current] != RUNNING || s.current == s.idle)
  {
    if s.state[s.current] == RUNNING && s.current != s.idle {
      PushTail(s.ready, s.current);
    }
  }

  lemma DispatchKeeps(s: Sched)
    requires Shape(s) && s.ready != [] && s.irq == 1 && s.postpone == 0
    requires s.state[s.current] != RUNNING || s.current == s.idle
    ensures Shape(Dispatch(s)) && Dispatch(s).state[Dispatch(s).current] == RUNNING
  {
    PopHead(s.ready);
  }

  lemma WakeSleeper(s: Sched)
    requires Shape(s) && s.sleeping != []
    ensures Shape(Wake(s.(sleeping := s.sleeping[1..]), s.sleeping[0]))
  {
    PopHead(s.sleeping);
    PushTail(s.ready, s.sleeping[0]);
  }

  lemma WakePaused(s: Sched)
    requires Shape(s) && s.paused != []
    ensures Shape(Wake(s.(paused := s.paused[1..]), s.paused[0]))
  {
    PopHead(s.paused);
    PushTail(s.ready, s.paused[0]);
  }

  lemma UnblockKeeps(s: Sched, t: TaskId)
    requires Shape(s)
    ensures Shape(Unblock(s, t))
    ensures Unblock(s, t).current == s.current && Unblock(s, t).irq == s.irq
    ensures Unblock(s, t).postpone == s.postpone && Unblock(s, t).flag == s.flag
    ensures s.state[s.current] == RUNNING ==> Unblock(s, t).state[s.current] == RUNNING
  {
    if s.sleeping != [] && s.sleeping[0] == t {
      WakeSleeper(s);
    } else if s.paused != [] && s.paused[0] == t {
      WakePaused(s);
    }
  }

  // ---------- the calls ----------

  lemma BlockKeeps(s: Sched, reason: TaskState)
    requires Inv(s) && BlockReason(reason) && s.irq == s.postpone && s.state[s.current] == RUNNING
    ensures Inv(Block(s, reason))
    ensures Block(s, reason).irq == s.irq && Block(s, reason).postpone == s.postpone
    ensures s.postpone > 0 ==> Block(s, reason).current == s.current
  {
    if s.current != s.idle {
      LockKeeps(s);
      EnlistKeeps(Lock(s), reason);
      ScheduleKeeps(Enlist(Lock(s), reason));
      UnlockKeeps(Schedule(Enlist(Lock(s), reason)));
    }
  }

  lemma LockStuffKeeps(s: Sched)
    requires Inv(s)
    ensures Inv(LockStuff(s))
  {
    LockKeeps(s);
  }

  /** The outermost unlock_stuff leaves nothing pending: any switch asked for has been made. */
  lemma UnlockStuffKeeps(s: Sched)
    requires Inv(s) && s.postpone > 0 && (s.postpone == 1 && s.flag ==> s.irq == 1)
    ensures Inv(UnlockStuff(s))
    ensures UnlockStuff(s).irq == s.irq - 1 && UnlockStuff(s).postpone == s.postpone - 1
    ensures s.postpone == 1 ==> !UnlockStuff(s).flag && UnlockStuff(s).state[UnlockStuff(s).current] == RUNNING
    ensures s.postpone > 1 ==> UnlockStuff(s).current == s.current
  {
    var s1 := s.(postpone := s.postpone - 1);
    if s1.postpone == 0 && s1.flag {
      var s2 := s1.(flag := false);
      ScheduleKeeps(s2);
      UnlockKeeps(Schedule(s2));
    } else {
      UnlockKeeps(s1);
    }
  }

  lemma SleepUntilKeeps(s: Sched, when: nat, now: nat)
    requires Inv(s) && s.irq == s.postpone && s.state[s.current] == RUNNING
    ensures Inv(SleepUntil(s, when, now))
  {
    LockStuffKeeps(s);
    var s1 := LockStuff(s);
    if when < now {
      UnlockStuffKeeps(s1);
    } else {
      var s2 := s1.(expiry := s1.expiry[s1.current := when]);
      BlockKeeps(s2, SLEEPING);
      UnlockStuffKeeps(Block(s2, SLEEPING));
    }
  }

  lemma TerminateKeeps(s: Sched)
    requires Inv(s) && s.irq == s.postpone && s.state[s.current] == RUNNING
    ensures Inv(Terminate(s))
  {
    LockStuffKeeps(s);
    UnblockKeeps(LockStuff(s), s.cleaner);
    var s1 := Unblock(LockStuff(s), s.cleaner);
    BlockKeeps(s1, TERMINATED);
    UnlockStuffKeeps(Block(s1, TERMINATED));
  }

  lemma CreateKeeps(s: Sched)
    requires Inv(s)
    ensures Inv(Create(s))
  {
    CreateRings(s);
  }

  lemma CreateRings(s: Sched)
    requires Inv(s)
    ensures Able(Create(s)) && RingsOk(Create(s))
  {
    PushTail(s.ready, s.lastId + 1);
  }

  lemma DrainKeeps(s: Sched)
    requires Inv(s) && s.state[s.current] == RUNNING
    ensures Inv(Drain(s)) && Drain(s).state[s.current] == RUNNING
  {
  }

  lemma CleanWorkKeeps(s: Sched)
    requires Inv(s) && s.irq == s.postpone && s.state[s.current] == RUNNING
    ensures Inv(CleanWork(s))
  {
    LockStuffKeeps(s);
    DrainKeeps(LockStuff(s));
    var s1 := Drain(LockStuff(s));
    BlockKeeps(s1, PAUSED);
    UnlockStuffKeeps(Block(s1, PAUSED));
  }

  // ---------- the tick ----------

  lemma {:induction false} SplitMembers(ring: seq<TaskId>, expiry: map<TaskId, nat>, now: nat)
    ensures forall t :: t in Due(ring, expiry, now) <==> t in ring && IsDue(t, expiry, now)
    ensures forall t :: t in Late(ring, expiry, now) <==> t in ring && !IsDue(t, expiry, now)
  {
    if ring != [] {
      SplitMembers(ring[1..], expiry, now);
    }
  }

  lemma ScannedMembers(ring: seq<TaskId>, expiry: map<TaskId, nat>, now: nat)
    ensures forall t :: t in Scanned(ring, expiry, now) <==> t in ring && !IsDue(t, expiry, now)
  {
    var j := LastDue(ring, expiry, now);
    if j != -1 {
      SplitMembers(ring[..j], expiry, now);
      assert ring == ring[..j] + [ring[j]] + ring[j + 1..];
    }
  }

  lemma {:induction false} DueDistinct(ring: seq<TaskId>, expiry: map<TaskId, nat>, now: nat)
    requires Distinct(ring)
    ensures Distinct(Due(ring, expiry, now)) && Distinct(Late(ring, expiry, now))
  {
    if ring != [] {
      PopHead(ring);
      DueDistinct(ring[1..], expiry, now);
      SplitMembers(ring[1..], expiry, now);
      DistinctConcat([ring[0]], Due(ring[1..], expiry, now));
      DistinctConcat([ring[0]], Late(ring[1..], expiry, now));
    }
  }

  lemma DistinctConcat(a: seq<TaskId>, b: seq<TaskId>)
    requires Distinct(a) && Distinct(b) && forall t :: t in a ==> t !in b
    ensures Distinct(a + b)
    ensures forall t :: t in a + b <==> t in a || t in b
  {
    forall i, j | 0 <= i < j < |a + b|
      ensures (a + b)[i] != (a + b)[j]
    {
      if i < |a| <= j {
        assert a[i] in a && b[j - |a|] in b;
      }
    }
  }

  lemma ScannedDistinct(ring: seq<TaskId>, expiry: map<TaskId, nat>, now: nat)
    requires Distinct(ring)
    ensures Distinct(Scanned(ring, expiry, now))
  {
    var j := LastDue(ring, expiry, now);
    if j != -1 {
      DueDistinct(ring[..j], expiry, now);
      SplitMembers(ring[..j], expiry, now);
      assert forall t :: t in ring[j + 1..] ==> t !in ring[..j];
      DistinctConcat(ring[j + 1..], Late(ring[..j], expiry, now));
    }
  }

  lemma WakeDueRings(s: Sched, now: nat)
    requires Shape(s)
    ensures Able(WakeDue(s, now)) && RingsOk(WakeDue(s, now))
  {
    SplitMembers(s.sleeping, s.expiry, now);
    ScannedMembers(s.sleeping, s.expiry, now);
    WakeDueDistinct(s, now);
  }

  lemma WakeDueDistinct(s: Sched, now: nat)
    requires Able(s) && RingsOk(s)
    ensures Distinct(WakeDue(s, now).sleeping) && Distinct(WakeDue(s, now).ready)
    ensures forall t :: t in WakeDue(s, now).ready <==> t in s.ready || t in Due(s.sleeping, s.expiry, now)
  {
    SplitMembers(s.sleeping, s.expiry, now);
    DueDistinct(s.sleeping, s.expiry, now);
    ScannedDistinct(s.sleeping, s.expiry, now);
    DistinctConcat(s.ready, Due(s.sleeping, s.expiry, now));
  }

  lemma WakeDueKeeps(s: Sched, now: nat)
    requires Shape(s)
    ensures Shape(WakeDue(s, now))
    ensures s.current !in s.sleeping ==> WakeDue(s, now).state[s.current] == s.state[s.current]
  {
    SplitMembers(s.sleeping, s.expiry, now);
    ScannedMembers(s.sleeping, s.expiry, now);
    WakeDueRings(s, now);
  }

  lemma AccountKeeps(s: Sched)
    requires Inv(s) && s.irq == 1 && s.postpone == 0
    ensures Inv(Account(s)) && Account(s).irq == 1 && Account(s).postpone == 0
  {
    if s.ready != [] && s.slice <= 1 {
      ScheduleKeeps(s);
    }
  }

  lemma TickKeeps(s: Sched, now: nat)
    requires Inv(s) && s.irq == 0
    ensures Inv(Tick(s, now))
  {
    LockKeeps(s);
    WakeDueKeeps(Lock(s), now);
    AccountKeeps(WakeDue(Lock(s), now));
    UnlockKeeps(Account(WakeDue(Lock(s), now)));
  }

  // ---------- runs ----------

  /** Every step keeps the invariant. */
  lemma StepKeeps(s: Sched, op: Op)
    requires Inv(s) && Enabled(s, op)
    ensures Inv(Apply(s, op))
  {
    match op
    case OpLockScheduler => LockKeeps(s);
    case OpUnlockScheduler => UnlockKeeps(s);
    case OpLockStuff => LockStuffKeeps(s);
    case OpUnlockStuff => UnlockStuffKeeps(s);
    case OpBlock(reason) => BlockKeeps(s, reason);
    case OpUnblock(t) => UnblockKeeps(s, t);
    case OpSleepUntil(when, now) => SleepUntilKeeps(s, when, now);
    case OpTerminate => TerminateKeeps(s);
    case OpCreate => CreateKeeps(s);
    case OpCleanWork => CleanWorkKeeps(s);
    case OpTick(now) => TickKeeps(s, now);
  }
}
