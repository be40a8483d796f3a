/** Sleeping and fairness: when sleepers wake, and how long a ready task can wait. */
module SchedulerSleep {
  import opened SchedulerSpec
  import opened SchedulerInvariant
  import opened Ring
  import opened SchedulerRuns

  lemma {:induction false} LateConcat(a: seq<TaskId>, b: seq<TaskId>, expiry: map<TaskId, nat>, now: nat)
    ensures Late(a + b, expiry, now) == Late(a, expiry, now) + Late(b, expiry, now)
  {
    if a == [] {
      assert a + b == b;
    } else {
      var h, rest := a[0], a[1..];
      assert (a + b)[1..] == rest + b;
      LateConcat(rest, b, expiry, now);
      var first := if IsDue(h, expiry, now) then [] else [h];
      assert Late(a, expiry, now) == first + Late(rest, expiry, now);
      assert Late(a + b, expiry, now) == first + (Late(rest, expiry, now) + Late(b, expiry, now));
    }
  }

  lemma {:induction false} NoneDue(ring: seq<TaskId>, expiry: map<TaskId, nat>, now: nat)
    requires forall i :: 0 <= i < |ring| ==> !IsDue(ring[i], expiry, now)
    ensures Late(ring, expiry, now) == ring && Due(ring, expiry, now) == []
  {
    if ring != [] {
      NoneDue(ring[1..], expiry, now);
    }
  }

  lemma DueHead(t: TaskId, rest: seq<TaskId>, expiry: map<TaskId, nat>, now: nat)
    requires IsDue(t, expiry, now) && forall i :: 0 <= i < |rest| ==> !IsDue(rest[i], expiry, now)
    ensures Late([t] + rest, expiry, now) == rest
  {
    assert ([t] + rest)[1..] == rest;
    NoneDue(rest, expiry, now);
  }

  lemma LateSplit(ring: seq<TaskId>, j: nat, expiry: map<TaskId, nat>, now: nat)
    requires j < |ring| && IsDue(ring[j], expiry, now)
    requires forall i :: j < i < |ring| ==> !IsDue(ring[i], expiry, now)
    ensures Late(ring, expiry, now) == Late(ring[..j], expiry, now) + ring[j + 1..]
  {
    var front, rest := ring[..j], ring[j + 1..];
    assert ring == front + ([ring[j]] + rest);
    LateConcat(front, [ring[j]] + rest, expiry, now);
    DueHead(ring[j], rest, expiry, now);
  }

  /** The scan keeps the late sleepers in their order, up to a rotation of the ring. */
  lemma ScannedRotates(ring: seq<TaskId>, expiry: map<TaskId, nat>, now: nat)
    ensures exists a, b :: Late(ring, expiry, now) == a + b && Scanned(ring, expiry, now) == b + a
  {
    var j := LastDue(ring, expiry, now);
    if j == -1 {
      NoneDue(ring, expiry, now);
      assert Late(ring, expiry, now) == ring + [] && Scanned(ring, expiry, now) == [] + ring;
    } else {
      LateSplit(ring, j, expiry, now);
      var a, b := Late(ring[..j], expiry, now), ring[j + 1..];
      assert Late(ring, expiry, now) == a + b && Scanned(ring, expiry, now) == b + a;
    }
  }

  // ---------- the rotating loop ----------

  /** The ring as it stood when the scan had dealt with the first p of the original sleepers. */
  ghost function RingFrom(ring: seq<TaskId>, p: nat, expiry: map<TaskId, nat>, now: nat): seq<TaskId>
    requires p <= |ring|
  {
    ring[p..] + Late(ring[..p], expiry, now)
  }

  lemma RingFromStart(ring: seq<TaskId>, expiry: map<TaskId, nat>, now: nat)
    ensures RingFrom(ring, 0, expiry, now) == ring
  {
    assert ring[..0] == [] && ring[0..] == ring;
  }

  ghost predicate AllLate(ring: seq<TaskId>, expiry: map<TaskId, nat>, now: nat) {
    forall t :: t in ring ==> !IsDue(t, expiry, now)
  }

  lemma {:induction false} DueConcat(a: seq<TaskId>, b: seq<TaskId>, expiry: map<TaskId, nat>, now: nat)
    ensures Due(a + b, expiry, now) == Due(a, expiry, now) + Due(b, expiry, now)
  {
    if a == [] {
      assert a + b == b;
    } else {
      var h, rest := a[0], a[1..];
      assert (a + b)[1..] == rest + b;
      DueConcat(rest, b, expiry, now);
      var first := if IsDue(h, expiry, now) then [h] else [];
      assert Due(a, expiry, now) == first + Due(rest, expiry, now);
      assert Due(a + b, expiry, now) == first + (Due(rest, expiry, now) + Due(b, expiry, now));
    }
  }

  /** Passing y late sleepers and then removing a due one leaves the ring as it stands further on. */
  lemma RemoveDue(ring: seq<TaskId>, p: nat, y: nat, expiry: map<TaskId, nat>, now: nat)
    requires p <= |ring| && y < |RingFrom(ring, p, expiry, now)|
    requires AllLate(RingFrom(ring, p, expiry, now)[..y], expiry, now)
    requires IsDue(RingFrom(ring, p, expiry, now)[y], expiry, now)
    ensures p + y < |ring| && RingFrom(ring, p, expiry, now)[y] == ring[p + y]
    ensures var z := RingFrom(ring, p, expiry, now);
            RingFrom(ring, p + y + 1, expiry, now) == z[y + 1..] + z[..y]
    ensures Due(ring[..p + y + 1], expiry, now) == Due(ring[..p], expiry, now) + [ring[p + y]]
  {
    DueIsAhead(ring, p, y, expiry, now);
    var x, passed := ring[p + y], ring[p..p + y];
    PassAndDrop(ring[..p], passed, x, expiry, now);
    assert ring[..p + y + 1] == ring[..p] + (passed + [x]);
    Splice(ring, p, y, Late(ring[..p], expiry, now));
  }

  lemma DueIsAhead(ring: seq<TaskId>, p: nat, y: nat, expiry: map<TaskId, nat>, now: nat)
    requires p <= |ring| && y < |RingFrom(ring, p, expiry, now)|
    requires IsDue(RingFrom(ring, p, expiry, now)[y], expiry, now)
    ensures p + y < |ring| && RingFrom(ring, p, expiry, now)[y] == ring[p + y]
    ensures RingFrom(ring, p, expiry, now)[..y] == ring[p..p + y]
  {
    var done := Late(ring[..p], expiry, now);
    SplitMembers(ring[..p], expiry, now);
    assert RingFrom(ring, p, expiry, now)[y] !in done;
  }

  lemma PassAndDrop(front: seq<TaskId>, passed: seq<TaskId>, x: TaskId, expiry: map<TaskId, nat>, now: nat)
    requires AllLate(passed, expiry, now) && IsDue(x, expiry, now)
    ensures Late(front + (passed + [x]), expiry, now) == Late(front, expiry, now) + passed
    ensures Due(front + (passed + [x]), expiry, now) == Due(front, expiry, now) + [x]
  {
    LateConcat(front, passed + [x], expiry, now);
    DueConcat(front, passed + [x], expiry, now);
    DueAtEnd(passed, x, expiry, now);
  }

  lemma DueAtEnd(passed: seq<TaskId>, x: TaskId, expiry: map<TaskId, nat>, now: nat)
    requires AllLate(passed, expiry, now) && IsDue(x, expiry, now)
    ensures Late(passed + [x], expiry, now) == passed && Due(passed + [x], expiry, now) == [x]
  {
    LateConcat(passed, [x], expiry, now);
    DueConcat(passed, [x], expiry, now);
    NoneDue(passed, expiry, now);
    assert Late([x], expiry, now) == [] && Due([x], expiry, now) == [x];
  }

  lemma Splice(ring: seq<TaskId>, p: nat, y: nat, done: seq<TaskId>)
    requires p + y < |ring|
    ensures ring[p + y + 1..] + (done + ring[p..p + y]) == (ring[p..] + done)[y + 1..] + (ring[p..] + done)[..y]
  {
  }

  /** A full round without a due sleeper ends the scan in its final state. */
  lemma ScanDone(ring: seq<TaskId>, p: nat, expiry: map<TaskId, nat>, now: nat)
    requires p <= |ring| && (p > 0 ==> IsDue(ring[p - 1], expiry, now))
    requires AllLate(RingFrom(ring, p, expiry, now), expiry, now)
    ensures Scanned(ring, expiry, now) == RingFrom(ring, p, expiry, now)
    ensures Due(ring, expiry, now) == Due(ring[..p], expiry, now)
  {
    RestIsLate(ring, p, expiry, now);
    LastDueBefore(ring, p, expiry, now);
    DueBefore(ring, p, expiry, now);
    ScannedFrom(ring, p, expiry, now);
  }

  lemma ScannedFrom(ring: seq<TaskId>, p: nat, expiry: map<TaskId, nat>, now: nat)
    requires p <= |ring| && LastDue(ring, expiry, now) == p - 1
    ensures Scanned(ring, expiry, now) == RingFrom(ring, p, expiry, now)
  {
    if p == 0 {
      RingFromStart(ring, expiry, now);
    } else {
      var front := ring[..p];
      assert front[..p - 1] == ring[..p - 1] && front[p - 1] == ring[p - 1];
      LateButLast(front, expiry, now);
    }
  }

  lemma LastDueBefore(ring: seq<TaskId>, p: nat, expiry: map<TaskId, nat>, now: nat)
    requires p <= |ring| && (p > 0 ==> IsDue(ring[p - 1], expiry, now))
    requires forall i :: p <= i < |ring| ==> !IsDue(ring[i], expiry, now)
    ensures LastDue(ring, expiry, now) == p - 1
  {
  }

  lemma DueBefore(ring: seq<TaskId>, p: nat, expiry: map<TaskId, nat>, now: nat)
    requires p <= |ring| && AllLate(ring[p..], expiry, now)
    ensures Due(ring, expiry, now) == Due(ring[..p], expiry, now)
  {
    assert ring == ring[..p] + ring[p..];
    DueConcat(ring[..p], ring[p..], expiry, now);
    NoneDue(ring[p..], expiry, now);
  }

  /** A due sleeper at the end is not among the late ones. */
  lemma LateButLast(ring: seq<TaskId>, expiry: map<TaskId, nat>, now: nat)
    requires ring != [] && IsDue(ring[|ring| - 1], expiry, now)
    ensures Late(ring, expiry, now) == Late(ring[..|ring| - 1], expiry, now)
  {
    var n := |ring| - 1;
    assert ring == ring[..n] + [ring[n]];
    LateConcat(ring[..n], [ring[n]], expiry, now);
  }

  lemma RestIsLate(ring: seq<TaskId>, p: nat, expiry: map<TaskId, nat>, now: nat)
    requires p <= |ring| && AllLate(RingFrom(ring, p, expiry, now), expiry, now)
    ensures AllLate(ring[p..], expiry, now)
    ensures forall i :: p <= i < |ring| ==> !IsDue(ring[i], expiry, now)
  {
    forall t | t in ring[p..]
      ensures !IsDue(t, expiry, now)
    {
      assert t in RingFrom(ring, p, expiry, now);
    }
    forall i | p <= i < |ring|
      ensures !IsDue(ring[i], expiry, now)
    {
      assert ring[i] in ring[p..];
    }
  }

  lemma RingFromDistinct(ring: seq<TaskId>, p: nat, expiry: map<TaskId, nat>, now: nat)
    requires Distinct(ring) && p <= |ring|
    ensures Distinct(RingFrom(ring, p, expiry, now))
  {
    DueDistinct(ring[..p], expiry, now);
    SplitMembers(ring[..p], expiry, now);
    assert forall t :: t in ring[p..] ==> t !in ring[..p];
    DistinctConcat(ring[p..], Late(ring[..p], expiry, now));
  }

  /** The state in the middle of a scan: some sleepers woken, the rest on a ring. */
  ghost function Woken(s: Sched, woken: seq<TaskId>, ring: seq<TaskId>): Sched {
    s.(sleeping := ring,
       ready := s.ready + woken,
       state := map t | t in s.state :: if t in woken then READY else s.state[t])
  }

  lemma WakeOneMore(s: Sched, woken: seq<TaskId>, t: TaskId, rest: seq<TaskId>)
    requires t in s.state
    ensures Unblock(Woken(s, woken, [t] + rest), t) == Woken(s, woken + [t], rest)
  {
    assert ([t] + rest)[1..] == rest;
    assert s.ready + woken + [t] == s.ready + (woken + [t]);
  }

  /**
   * Where a scan can stand: the first p of the original sleepers are dealt with, and the ring has
   * been turned past y sleepers that are late.
   */
  ghost predicate ScanAt(s: Sched, now: nat, p: nat, y: nat) {
    && Distinct(s.sleeping) && (forall t :: t in s.sleeping ==> t in s.state)
    && p <= |s.sleeping| && (p > 0 ==> IsDue(s.sleeping[p - 1], s.expiry, now))
    && y <= |RingFrom(s.sleeping, p, s.expiry, now)|
    && AllLate(RingFrom(s.sleeping, p, s.expiry, now)[..y], s.expiry, now)
  }

  ghost function Turned(s: Sched, now: nat, p: nat, y: nat): seq<TaskId>
    requires ScanAt(s, now, p, y)
  {
    var z := RingFrom(s.sleeping, p, s.expiry, now);
    z[y..] + z[..y]
  }

  ghost function ScanState(s: Sched, now: nat, p: nat, y: nat): Sched
    requires ScanAt(s, now, p, y)
  {
    Woken(s, Due(s.sleeping[..p], s.expiry, now), Turned(s, now, p, y))
  }

  lemma ScanStarts(s: Sched, now: nat)
    requires Distinct(s.sleeping) && forall t :: t in s.sleeping ==> t in s.state
    ensures ScanAt(s, now, 0, 0) && ScanState(s, now, 0, 0) == s
    ensures RingFrom(s.sleeping, 0, s.expiry, now) == s.sleeping
  {
    RingFromStart(s.sleeping, s.expiry, now);
    assert Turned(s, now, 0, 0) == s.sleeping;
    assert Due(s.sleeping[..0], s.expiry, now) == [];
  }

  /** A due sleeper at the head is woken, and the scan stands just after it. */
  lemma ScanWakes(s: Sched, now: nat, p: nat, y: nat)
    requires ScanAt(s, now, p, y) && Turned(s, now, p, y) != []
    requires IsDue(Turned(s, now, p, y)[0], s.expiry, now)
    ensures p + y < |s.sleeping| && ScanAt(s, now, p + y + 1, 0)
    ensures Unblock(ScanState(s, now, p, y), Turned(s, now, p, y)[0]) == ScanState(s, now, p + y + 1, 0)
    ensures |Turned(s, now, p + y + 1, 0)| == |Turned(s, now, p, y)| - 1
  {
    var ring := Turned(s, now, p, y);
    TurnedPops(s, now, p, y);
    WakeOneMore(s, Due(s.sleeping[..p], s.expiry, now), ring[0], ring[1..]);
    assert ring == [ring[0]] + ring[1..];
  }

  lemma TurnedPops(s: Sched, now: nat, p: nat, y: nat)
    requires ScanAt(s, now, p, y) && Turned(s, now, p, y) != []
    requires IsDue(Turned(s, now, p, y)[0], s.expiry, now)
    ensures p + y < |s.sleeping| && Turned(s, now, p, y)[0] == s.sleeping[p + y]
    ensures ScanAt(s, now, p + y + 1, 0) && Turned(s, now, p + y + 1, 0) == Turned(s, now, p, y)[1..]
    ensures Due(s.sleeping[..p + y + 1], s.expiry, now) == Due(s.sleeping[..p], s.expiry, now) + [s.sleeping[p + y]]
  {
    var z, ring := RingFrom(s.sleeping, p, s.expiry, now), Turned(s, now, p, y);
    assert ring[0] !in z[..y];
    RemoveDue(s.sleeping, p, y, s.expiry, now);
    assert ring[1..] == z[y + 1..] + z[..y];
    TurnedStart(s, now, p + y + 1);
  }

  lemma TurnedStart(s: Sched, now: nat, p: nat)
    requires ScanAt(s, now, p, 0)
    ensures Turned(s, now, p, 0) == RingFrom(s.sleeping, p, s.expiry, now)
  {
  }

  /** A late sleeper at the head is passed by moving the head on. */
  lemma ScanTurns(s: Sched, now: nat, p: nat, y: nat)
    requires ScanAt(s, now, p, y) && y < |RingFrom(s.sleeping, p, s.expiry, now)|
    requires !IsDue(Turned(s, now, p, y)[0], s.expiry, now)
    ensures ScanAt(s, now, p, y + 1)
    ensures Turned(s, now, p, y + 1) == Turned(s, now, p, y)[1..] + [Turned(s, now, p, y)[0]]
    ensures RingFrom(s.sleeping, p, s.expiry, now)[0] == Turned(s, now, p, y + 1)[0] <==>
            y + 1 == |RingFrom(s.sleeping, p, s.expiry, now)|
  {
    var z := RingFrom(s.sleeping, p, s.expiry, now);
    RingFromDistinct(s.sleeping, p, s.expiry, now);
    assert z[..y + 1] == z[..y] + [z[y]];
    assert Turned(s, now, p, y)[0] == z[y];
    assert Turned(s, now, p, y + 1)[0] == if y + 1 < |z| then z[y + 1] else z[0];
  }

  /** Once turned all the way, the scan has done exactly what the tick promises. */
  lemma ScanEnds(s: Sched, now: nat, p: nat, y: nat)
    requires ScanAt(s, now, p, y) && y == |RingFrom(s.sleeping, p, s.expiry, now)|
    ensures ScanState(s, now, p, y) == WakeDue(s, now)
  {
    var z := RingFrom(s.sleeping, p, s.expiry, now);
    assert z[..y] == z && Turned(s, now, p, y) == z;
    ScanDone(s.sleeping, p, s.expiry, now);
  }

  /** The scan appends exactly the due sleepers to the ready ring and loses nobody. */
  lemma ScanMovesDue(s: Sched, now: nat, t: TaskId)
    requires Shape(s)
    ensures t in WakeDue(s, now).ready <==> t in s.ready || (t in s.sleeping && s.expiry[t] <= now)
    ensures t in WakeDue(s, now).sleeping <==> t in s.sleeping && s.expiry[t] > now
    ensures s.ready <= WakeDue(s, now).ready
  {
    SplitMembers(s.sleeping, s.expiry, now);
    ScannedMembers(s.sleeping, s.expiry, now);
  }

  /** Two states with the same blocked rings, wake-up times and fixed tasks. */
  ghost predicate SameBlocked(s: Sched, s': Sched) {
    && s'.sleeping == s.sleeping && s'.expiry == s.expiry && s'.paused == s.paused
    && s'.terminated == s.terminated && s'.lastId == s.lastId && s'.cleaner == s.cleaner
    && s'.idle == s.idle
  }

  lemma RequeuedFrame(s: Sched)
    ensures SameBlocked(s, Requeued(s)) && (s.ready != [] ==> Requeued(s).ready != [])
  {
  }

  lemma DispatchFrame(s: Sched)
    requires s.ready != []
    ensures SameBlocked(s, Dispatch(s))
  {
  }

  /** schedule touches no blocked ring, no wake-up time and no lock. */
  lemma ScheduleFrame(s: Sched)
    ensures SameBlocked(s, Schedule(s))
  {
    if s.postpone == 0 && s.ready != [] {
      RequeuedFrame(s);
      DispatchFrame(Requeued(s));
    }
  }

  lemma BlockSleeping(s: Sched, reason: TaskState)
    requires BlockReason(reason)
    ensures Block(s, reason).expiry == s.expiry
    ensures Block(s, reason).sleeping ==
            if reason == SLEEPING && s.current != s.idle then s.sleeping + [s.current] else s.sleeping
  {
    if s.current != s.idle {
      ScheduleFrame(Enlist(Lock(s), reason));
    }
  }

  lemma UnlockStuffSleeping(s: Sched)
    ensures UnlockStuff(s).expiry == s.expiry && UnlockStuff(s).sleeping == s.sleeping
  {
    ScheduleFrame(s.(postpone := 0, flag := false));
  }

  lemma TickSleeping(s: Sched, now: nat)
    ensures Tick(s, now).expiry == s.expiry && Tick(s, now).sleeping == Scanned(s.sleeping, s.expiry, now)
  {
    ScheduleFrame(WakeDue(Lock(s), now));
  }

  lemma UnblockSleeping(s: Sched, t: TaskId)
    ensures Unblock(s, t).expiry == s.expiry
    ensures Unblock(s, t).sleeping == if s.sleeping != [] && s.sleeping[0] == t then s.sleeping[1..] else s.sleeping
  {
  }

  /** The only ways out of the sleeping ring: the tick when due, or being its head when someone unblocks you. */
  ghost predicate Roused(s: Sched, op: Op, t: TaskId)
    requires t in s.expiry
  {
    match op
    case OpTick(now) => s.expiry[t] <= now
    case OpUnblock(u) => u == t && s.sleeping != [] && s.sleeping[0] == t
    case OpTerminate => s.cleaner == t && s.sleeping != [] && s.sleeping[0] == t
    case _ => false
  }

  /** What a step does to the sleeping ring, and to wake-up times of tasks other than the running one. */
  ghost function SleepingAfter(s: Sched, op: Op): seq<TaskId>
    requires Enabled(s, op)
  {
    match op
    case OpBlock(reason) => if reason == SLEEPING && s.current != s.idle then s.sleeping + [s.current] else s.sleeping
    case OpUnblock(t) => if s.sleeping != [] && s.sleeping[0] == t then s.sleeping[1..] else s.sleeping
    case OpSleepUntil(when, now) => if when >= now && s.current != s.idle then s.sleeping + [s.current] else s.sleeping
    case OpTerminate => if s.sleeping != [] && s.sleeping[0] == s.cleaner then s.sleeping[1..] else s.sleeping
    case OpTick(now) => Scanned(s.sleeping, s.expiry, now)
    case _ => s.sleeping
  }

  lemma SleepingStep(s: Sched, op: Op)
    requires Inv(s) && Enabled(s, op)
    ensures Apply(s, op).sleeping == SleepingAfter(s, op)
  {
    match op
    case OpBlock(reason) => BlockSleeping(s, reason);
    case OpUnblock(t) => UnblockSleeping(s, t);
    case OpUnlockStuff => UnlockStuffSleeping(s);
    case OpSleepUntil(when, now) => SleepUntilSleeping(s, when, now);
    case OpTerminate => TerminateSleeping(s);
    case OpCleanWork => CleanWorkSleeping(s);
    case OpTick(now) => TickSleeping(s, now);
    case _ =>
  }

  lemma ExpiryStep(s: Sched, op: Op, t: TaskId)
    requires Inv(s) && Enabled(s, op) && t in Apply(s, op).expiry && t in s.expiry
    requires op.OpSleepUntil? ==> t != s.current
    ensures Apply(s, op).expiry[t] == s.expiry[t]
  {
    match op
    case OpBlock(reason) => BlockSleeping(s, reason);
    case OpUnblock(u) => UnblockSleeping(s, u);
    case OpUnlockStuff => UnlockStuffSleeping(s);
    case OpSleepUntil(when, now) => SleepUntilSleeping(s, when, now);
    case OpTerminate => TerminateSleeping(s);
    case OpCleanWork => CleanWorkSleeping(s);
    case OpTick(now) => TickSleeping(s, now);
    case _ =>
  }

  lemma TerminateSleeping(s: Sched)
    ensures Terminate(s).expiry == s.expiry
    ensures Terminate(s).sleeping ==
            if s.sleeping != [] && s.sleeping[0] == s.cleaner then s.sleeping[1..] else s.sleeping
  {
    var s1 := Unblock(LockStuff(s), s.cleaner);
    UnblockSleeping(LockStuff(s), s.cleaner);
    BlockSleeping(s1, TERMINATED);
    UnlockStuffSleeping(Block(s1, TERMINATED));
  }

  lemma CleanWorkSleeping(s: Sched)
    requires Inv(s) && Enabled(s, OpCleanWork)
    ensures CleanWork(s).sleeping == s.sleeping
    ensures CleanWork(s).expiry == s.expiry - Members(s.terminated)
  {
    CleanWorkKeeps(s);
    var s1 := Drain(LockStuff(s));
    BlockSleeping(s1, PAUSED);
    UnlockStuffSleeping(Block(s1, PAUSED));
  }

  lemma SleepUntilSleeping(s: Sched, when: nat, now: nat)
    ensures SleepUntil(s, when, now).sleeping ==
            if when >= now && s.current != s.idle then s.sleeping + [s.current] else s.sleeping
    ensures SleepUntil(s, when, now).expiry == if when >= now then s.expiry[s.current := when] else s.expiry
  {
    var s1 := LockStuff(s);
    if when < now {
      UnlockStuffSleeping(s1);
    } else {
      var s2 := s1.(expiry := s1.expiry[s1.current := when]);
      BlockSleeping(s2, SLEEPING);
      UnlockStuffSleeping(Block(s2, SLEEPING));
    }
  }

  /** Each sleeper stays asleep, with its wake-up time, exactly when nothing rouses it. */
  ghost predicate SleepersStep(s: Sched, op: Op, s': Sched) {
    forall t :: t in s.sleeping ==>
      && t in s.expiry
      && (t !in s'.sleeping <==> Roused(s, op, t))
      && (t in s'.sleeping ==> t in s'.expiry && s'.expiry[t] == s.expiry[t])
  }

  lemma SleepsUnlessRoused(s: Sched, op: Op)
    requires Inv(s) && Enabled(s, op)
    ensures SleepersStep(s, op, Apply(s, op))
  {
    SleepingStep(s, op);
    StepKeeps(s, op);
    if op.OpTick? {
      ScannedMembers(s.sleeping, s.expiry, op.now);
    }
    if s.sleeping != [] {
      PopHead(s.sleeping);
    }
    forall t | t in s.sleeping && t in Apply(s, op).sleeping
      ensures Apply(s, op).expiry[t] == s.expiry[t]
    {
      ExpiryStep(s, op, t);
    }
  }

  /** A call to sleep puts the caller on the ring with its wake-up time. */
  lemma SleepStarts(s: Sched, when: nat, now: nat)
    requires Inv(s) && Enabled(s, OpSleepUntil(when, now)) && when >= now && s.current != s.idle
    ensures s.current in SleepUntil(s, when, now).sleeping && SleepUntil(s, when, now).expiry[s.current] == when
  {
    SleepUntilSleeping(s, when, now);
  }

  /** After a handled tick no sleeper is overdue. */
  lemma NoSleeperOverdue(s: Sched, now: nat, t: TaskId)
    requires Inv(s) && Enabled(s, OpTick(now)) && t in Tick(s, now).sleeping
    ensures t in s.sleeping && s.expiry[t] > now
  {
    TickSleeping(s, now);
    ScannedMembers(s.sleeping, s.expiry, now);
  }

  /** A run, seen only through its sleeping rings. */
  ghost predicate SleepTrace(states: seq<Sched>, ops: seq<Op>) {
    && |states| == |ops| + 1
    && forall k :: 0 <= k < |ops| ==> SleepersStep(states[k], ops[k], states[k + 1])
  }

  lemma RunIsSleepTrace(states: seq<Sched>, ops: seq<Op>)
    requires Run(states, ops)
    ensures SleepTrace(states, ops)
  {
    forall k | 0 <= k < |ops|
      ensures SleepersStep(states[k], ops[k], states[k + 1])
    {
      InvAlways(states, ops, k);
      SleepsUnlessRoused(states[k], ops[k]);
    }
  }

  lemma {:induction false} ExpiryKept(states: seq<Sched>, ops: seq<Op>, i: nat, n: nat, t: TaskId)
    requires SleepTrace(states, ops) && i <= n < |ops|
    requires forall k :: i <= k <= n ==> t in states[k].sleeping
    ensures t in states[i].expiry && t in states[n].expiry && states[n].expiry[t] == states[i].expiry[t]
    decreases n
  {
    assert SleepersStep(states[n], ops[n], states[n + 1]);
    if i < n {
      ExpiryKept(states, ops, i, n - 1, t);
      assert SleepersStep(states[n - 1], ops[n - 1], states[n]);
    }
  }

  /** In a run, a task that nobody unblocks by hand sleeps until a tick at or after its wake-up time. */
  lemma NoEarlyWake(states: seq<Sched>, ops: seq<Op>, i: nat, n: nat, t: TaskId)
    requires Run(states, ops) && i <= n < |ops|
    requires forall k :: i <= k <= n ==> t in states[k].sleeping
    requires t !in states[n + 1].sleeping
    requires ops[n] != OpUnblock(t) && (ops[n] == OpTerminate ==> t != states[n].cleaner)
    ensures ops[n].OpTick? && t in states[i].expiry && states[i].expiry[t] <= ops[n].now
  {
    RunIsSleepTrace(states, ops);
    ExpiryKept(states, ops, i, n, t);
    assert SleepersStep(states[n], ops[n], states[n + 1]);
  }
}

/** Round robin: a ready task waits for exactly the tasks ahead of it. */
module SchedulerFairness {
  import opened Options
  import opened SchedulerSpec
  import opened SchedulerInvariant
  import opened SchedulerRuns

  /** The ready ring only grew at its tail, nothing was dispatched, and the time slice is as before. */
  ghost predicate QueueKept(s: Sched, s': Sched) {
    s.ready <= s'.ready && s'.dispatches == s.dispatches && s'.slice == s.slice
  }

  lemma PostponedBlockKeepsQueue(s: Sched, reason: TaskState)
    requires BlockReason(reason) && s.postpone > 0
    ensures QueueKept(s, Block(s, reason))
  {
  }

  lemma QueueKeptTwice(s: Sched, s1: Sched, s2: Sched)
    requires QueueKept(s, s1) && QueueKept(s1, s2)
    ensures QueueKept(s, s2)
  {
  }

  lemma UnblockQueue(s: Sched, t: TaskId)
    ensures QueueKept(s, Unblock(s, t)) && Unblock(s, t).postpone == s.postpone
  {
  }

  lemma DrainQueue(s: Sched)
    ensures QueueKept(s, Drain(s)) && Drain(s).postpone == s.postpone
  {
  }

  lemma BeforeUnlockQueue(s: Sched, op: Op)
    requires Inv(s) && Enabled(s, op) && BeforeUnlock(s, op).Some?
    ensures QueueKept(s, BeforeUnlock(s, op).value)
  {
    var s1 := LockStuff(s);
    assert QueueKept(s, s1);
    match op
    case OpSleepUntil(when, now) =>
      var s2 := s1.(expiry := s1.expiry[s1.current := when]);
      PostponedBlockKeepsQueue(s2, SLEEPING);
    case OpTerminate =>
      UnblockQueue(s1, s.cleaner);
      PostponedBlockKeepsQueue(Unblock(s1, s.cleaner), TERMINATED);
      QueueKeptTwice(s1, Unblock(s1, s.cleaner), Block(Unblock(s1, s.cleaner), TERMINATED));
    case OpCleanWork =>
      CleanWorkKeeps(s);
      DrainQueue(s1);
      PostponedBlockKeepsQueue(Drain(s1), PAUSED);
      QueueKeptTwice(s1, Drain(s1), Block(Drain(s1), PAUSED));
    case _ =>
  }

  lemma PointQueue(s: Sched, op: Op)
    requires Inv(s) && Enabled(s, op) && SwitchPoint(s, op).Some?
    ensures QueueKept(s, SwitchPoint(s, op).value)
  {
    if op.OpUnlockStuff? || op.OpSleepUntil? || op.OpTerminate? || op.OpCleanWork? {
      BeforeUnlockQueue(s, op);
    }
  }

  lemma QuietUnlock(u: Sched)
    requires DischargePoint(u).None?
    ensures QueueKept(u, UnlockStuff(u))
  {
  }

  lemma QuietTick(s: Sched, now: nat)
    requires s.irq == 0 && s.ready != [] && SwitchPoint(s, OpTick(now)).None?
    ensures s.ready <= Tick(s, now).ready && Tick(s, now).dispatches == s.dispatches
    ensures s.slice > 1 && Tick(s, now).slice == s.slice - 1
  {
  }

  /** Steps that do not enter schedule; a tick among them uses up one unit of the slice. */
  lemma NoPointQueue(s: Sched, op: Op)
    requires Inv(s) && Enabled(s, op) && SwitchPoint(s, op).None? && s.ready != []
    ensures var s' := Apply(s, op);
            && s.ready <= s'.ready && s'.dispatches == s.dispatches
            && s'.slice == (if op.OpTick? then s.slice - 1 else s.slice)
            && (op.OpTick? ==> s.slice > 1)
  {
    if op.OpUnlockStuff? || op.OpSleepUntil? || op.OpTerminate? || op.OpCleanWork? {
      BeforeUnlockOk(s, op);
      BeforeUnlockQueue(s, op);
      QuietUnlock(BeforeUnlock(s, op).value);
      QueueKeptTwice(s, BeforeUnlock(s, op).value, Apply(s, op));
    } else if op.OpTick? {
      QuietTick(s, op.now);
    } else if op.OpBlock? {
      if s.current != s.idle {
        PostponedBlockKeepsQueue(s, op.reason);
      }
    }
  }

  /** What schedule does to the queue when it may switch. */
  lemma ScheduleQueue(s: Sched)
    requires s.postpone == 0 && s.ready != []
    ensures var s' := Schedule(s);
            && s'.dispatches == s.dispatches + 1 && s'.slice == TIME_SLICE_LENGTH && s'.current == s.ready[0]
            && s.ready[1..] <= s'.ready && s'.state[s'.current] == RUNNING
  {
  }

  /** How many handled ticks a task at index k can still wait. */
  ghost function Patience(s: Sched, k: nat): nat {
    TIME_SLICE_LENGTH * k + (if s.slice > 1 then s.slice else 1)
  }

  /** The task at index k kept its index, or moved up by one and, from index 0, is running now; a tick cost patience. */
  ghost predicate Advances(s: Sched, tick: nat, k: nat, s': Sched)
    requires k < |s.ready|
  {
    if s'.dispatches == s.dispatches then
      && k < |s'.ready| && s'.ready[k] == s.ready[k] && Patience(s', k) + tick <= Patience(s, k)
    else
      && s'.dispatches == s.dispatches + 1
      && if k == 0 then s'.current == s.ready[0]
         else k - 1 < |s'.ready| && s'.ready[k - 1] == s.ready[k] && Patience(s', k - 1) + tick <= Patience(s, k)
  }

  ghost function TickCount(op: Op): nat {
    if op.OpTick? then 1 else 0
  }

  /** One step moves a ready task up by exactly one place per effective schedule, and every tick costs patience. */
  lemma QueueStep(s: Sched, op: Op, k: nat)
    requires Inv(s) && Enabled(s, op) && k < |s.ready|
    ensures Advances(s, TickCount(op), k, Apply(s, op))
  {
    if SwitchPoint(s, op).Some? {
      SwitchAtDepthOne(s, op);
      PointQueue(s, op);
      var p := SwitchPoint(s, op).value;
      ScheduleQueue(p);
      if k > 0 {
        assert p.ready[1..][k - 1] == s.ready[k];
      }
    } else {
      NoPointQueue(s, op);
    }
  }

  ghost function Ticks(ops: seq<Op>): nat {
    if ops == [] then 0 else Ticks(ops[..|ops| - 1]) + TickCount(ops[|ops| - 1])
  }

  lemma TicksSnoc(ops: seq<Op>, i: nat, n: nat)
    requires i < n <= |ops|
    ensures Ticks(ops[i..n]) == Ticks(ops[i..n - 1]) + TickCount(ops[n - 1])
  {
    assert ops[i..n][..n - 1 - i] == ops[i..n - 1];
  }

  ghost predicate AllAdvance(s: Sched, tick: nat, s': Sched) {
    forall k: nat :: k < |s.ready| ==> Advances(s, tick, k, s')
  }

  lemma QueuesStep(s: Sched, op: Op)
    requires Inv(s) && Enabled(s, op)
    ensures AllAdvance(s, TickCount(op), Apply(s, op))
  {
    forall k: nat | k < |s.ready|
      ensures Advances(s, TickCount(op), k, Apply(s, op))
    {
      QueueStep(s, op, k);
    }
  }

  /** A run, seen only through its ready rings: every step advances every ready task. */
  ghost predicate QueueTrace(states: seq<Sched>, ops: seq<Op>) {
    && |states| == |ops| + 1
    && forall n :: 0 <= n < |ops| ==> AllAdvance(states[n], TickCount(ops[n]), states[n + 1])
  }

  lemma RunIsQueueTrace(states: seq<Sched>, ops: seq<Op>)
    requires Run(states, ops)
    ensures QueueTrace(states, ops)
    ensures forall n: nat :: n <= |ops| ==> states[n].slice <= TIME_SLICE_LENGTH
  {
    forall n | 0 <= n < |ops|
      ensures AllAdvance(states[n], TickCount(ops[n]), states[n + 1])
    {
      InvAlways(states, ops, n);
      QueuesStep(states[n], ops[n]);
    }
    forall n: nat | n <= |ops|
      ensures states[n].slice <= TIME_SLICE_LENGTH
    {
      InvAlways(states, ops, n);
    }
  }

  /** Where the task that stood at index k of state i stands in state n, after at most k dispatches. */
  ghost predicate Stands(states: seq<Sched>, ops: seq<Op>, i: nat, n: nat, k: nat)
    requires |states| == |ops| + 1 && i <= n <= |ops| && k < |states[i].ready|
  {
    var d := states[n].dispatches - states[i].dispatches;
    && 0 <= d <= k
    && k - d < |states[n].ready| && states[n].ready[k - d] == states[i].ready[k]
    && Ticks(ops[i..n]) + Patience(states[n], k - d) <= Patience(states[i], k)
  }

  /** Until its dispatch, a ready task's index falls by the number of effective schedules, whatever else happens. */
  lemma {:induction false} IndexFallsByDispatches(states: seq<Sched>, ops: seq<Op>, i: nat, n: nat, k: nat)
    requires QueueTrace(states, ops) && i <= n <= |ops| && k < |states[i].ready|
    requires forall m :: i <= m <= n ==> states[m].dispatches <= states[i].dispatches + k
    ensures Stands(states, ops, i, n, k)
    decreases n
  {
    if i == n {
      assert ops[i..n] == [];
    } else {
      IndexFallsByDispatches(states, ops, i, n - 1, k);
      var j := k - (states[n - 1].dispatches - states[i].dispatches);
      assert AllAdvance(states[n - 1], TickCount(ops[n - 1]), states[n]);
      assert Advances(states[n - 1], TickCount(ops[n - 1]), j, states[n]);
      TicksSnoc(ops, i, n);
    }
  }

  /** The (k+1)-th effective schedule after a task stood at index k dispatches that very task. */
  lemma DispatchedInTurn(states: seq<Sched>, ops: seq<Op>, i: nat, n: nat, k: nat)
    requires QueueTrace(states, ops) && i <= n < |ops| && k < |states[i].ready|
    requires forall m :: i <= m <= n ==> states[m].dispatches <= states[i].dispatches + k
    requires states[n + 1].dispatches > states[i].dispatches + k
    ensures states[n + 1].dispatches == states[i].dispatches + k + 1
    ensures states[n + 1].current == states[i].ready[k]
  {
    IndexFallsByDispatches(states, ops, i, n, k);
    var j := k - (states[n].dispatches - states[i].dispatches);
    assert Advances(states[n], TickCount(ops[n]), j, states[n + 1]);
  }

  /** The step at which the count of dispatches first passes k. */
  lemma FirstBeyond(states: seq<Sched>, i: nat, n: nat, k: nat) returns (m: nat)
    requires i <= n < |states| && states[n].dispatches > states[i].dispatches + k
    ensures i < m <= n && states[m].dispatches > states[i].dispatches + k
    ensures forall l :: i <= l < m ==> states[l].dispatches <= states[i].dispatches + k
  {
    m := i;
    while states[m].dispatches <= states[i].dispatches + k
      invariant i <= m <= n
      invariant forall l :: i <= l < m ==> states[l].dispatches <= states[i].dispatches + k
      decreases n - m
    {
      m := m + 1;
    }
  }

  /**
   * Within (k+1) time slices' worth of handled ticks, the task at index k of the ready ring has been
   * dispatched, by exactly the (k+1)-th effective schedule.
   */
  lemma RoundRobinBound(states: seq<Sched>, ops: seq<Op>, i: nat, n: nat, k: nat)
    requires Run(states, ops) && i <= n <= |ops| && k < |states[i].ready|
    requires Ticks(ops[i..n]) >= TIME_SLICE_LENGTH * (k + 1)
    ensures exists m :: i < m <= n && states[m].dispatches == states[i].dispatches + k + 1
                        && states[m].current == states[i].ready[k]
  {
    RunIsQueueTrace(states, ops);
    TraceBound(states, ops, i, n, k);
  }

  lemma TraceBound(states: seq<Sched>, ops: seq<Op>, i: nat, n: nat, k: nat)
    requires QueueTrace(states, ops) && i <= n <= |ops| && k < |states[i].ready|
    requires states[i].slice <= TIME_SLICE_LENGTH && Ticks(ops[i..n]) >= TIME_SLICE_LENGTH * (k + 1)
    ensures exists m :: i < m <= n && states[m].dispatches == states[i].dispatches + k + 1
                        && states[m].current == states[i].ready[k]
  {
    if forall l :: i <= l <= n ==> states[l].dispatches <= states[i].dispatches + k {
      IndexFallsByDispatches(states, ops, i, n, k);
      assert false;
    }
    var l :| i <= l <= n && states[l].dispatches > states[i].dispatches + k;
    var m := FirstBeyond(states, i, l, k);
    DispatchedInTurn(states, ops, i, m - 1, k);
  }

  /** Every run dispatches in turn. */
  lemma RunDispatchesInTurn(states: seq<Sched>, ops: seq<Op>, i: nat, n: nat, k: nat)
    requires Run(states, ops) && i <= n < |ops| && k < |states[i].ready|
    requires forall m :: i <= m <= n ==> states[m].dispatches <= states[i].dispatches + k
    requires states[n + 1].dispatches > states[i].dispatches + k
    ensures states[n + 1].dispatches == states[i].dispatches + k + 1
    ensures states[n + 1].current == states[i].ready[k]
  {
    RunIsQueueTrace(states, ops);
    DispatchedInTurn(states, ops, i, n, k);
  }
}

/** A terminated task never runs again, and its memory is freed once. */
module SchedulerTermination {
  import opened Options
  import opened SchedulerSpec
  import opened SchedulerInvariant
  import opened SchedulerSleep
  import opened SchedulerRuns

  /** The task has ended: it is waiting for the cleaner, or was freed, and is no longer running. */
  ghost predicate Gone(s: Sched, t: TaskId) {
    t <= s.lastId && t != s.current && (t in s.terminated || t !in s.state)
  }

  /** An ended task is on no ring from which tasks are dispatched or woken. */
  lemma GoneIsOut(s: Sched, t: TaskId)
    requires Inv(s) && Gone(s, t)
    ensures t != s.current && t != s.idle && t !in s.ready && t !in s.paused && t !in s.sleeping
  {
  }

  /** schedule passes an ended task by. */
  lemma ScheduleSkipsGone(s: Sched, t: TaskId)
    requires Shape(s) && (t in s.terminated || t !in s.state)
    ensures var s' := Schedule(s);
            && s'.lastId == s.lastId && (t in s'.terminated || t !in s'.state)
            && (t != s.current || (s.postpone == 0 && s.state[s.current] != RUNNING) ==> s'.current != t)
  {
  }

  lemma BlockSkipsGone(s: Sched, reason: TaskState, t: TaskId)
    requires Inv(s) && BlockReason(reason) && s.irq == s.postpone && s.state[s.current] == RUNNING && Gone(s, t)
    ensures Gone(Block(s, reason), t)
  {
    if s.current != s.idle {
      LockKeeps(s);
      EnlistKeeps(Lock(s), reason);
      ScheduleSkipsGone(Enlist(Lock(s), reason), t);
    }
  }

  lemma UnlockStuffSkipsGone(s: Sched, t: TaskId)
    requires Inv(s) && s.postpone > 0 && (s.postpone == 1 && s.flag ==> s.irq == 1) && Gone(s, t)
    ensures Gone(UnlockStuff(s), t)
  {
    var s1 := s.(postpone := s.postpone - 1);
    if s1.postpone == 0 && s1.flag {
      ScheduleSkipsGone(s1.(flag := false), t);
    }
  }

  lemma UnblockSkipsGone(s: Sched, u: TaskId, t: TaskId)
    requires Inv(s) && Gone(s, t)
    ensures Gone(Unblock(s, u), t)
  {
  }

  lemma BeforeUnlockSkipsGone(s: Sched, op: Op, t: TaskId)
    requires Inv(s) && Enabled(s, op) && Gone(s, t) && BeforeUnlock(s, op).Some?
    ensures Gone(BeforeUnlock(s, op).value, t)
  {
    LockStuffKeeps(s);
    var s1 := LockStuff(s);
    match op
    case OpSleepUntil(when, now) =>
      if when >= now {
        BlockSkipsGone(s1.(expiry := s1.expiry[s1.current := when]), SLEEPING, t);
      }
    case OpTerminate =>
      UnblockKeeps(s1, s.cleaner);
      UnblockSkipsGone(s1, s.cleaner, t);
      BlockSkipsGone(Unblock(s1, s.cleaner), TERMINATED, t);
    case OpCleanWork =>
      DrainKeeps(s1);
      BlockSkipsGone(Drain(s1), PAUSED, t);
    case _ =>
  }

  lemma TickSkipsGone(s: Sched, now: nat, t: TaskId)
    requires Inv(s) && s.irq == 0 && Gone(s, t)
    ensures Gone(Tick(s, now), t)
  {
    LockKeeps(s);
    WakeDueKeeps(Lock(s), now);
    var s1 := WakeDue(Lock(s), now);
    if s1.ready != [] && s1.slice <= 1 {
      ScheduleSkipsGone(s1, t);
    }
  }

  /** Once ended, always ended: no step dispatches, wakes or recreates the task. */
  lemma GoneStays(s: Sched, op: Op, t: TaskId)
    requires Inv(s) && Enabled(s, op) && Gone(s, t)
    ensures Gone(Apply(s, op), t)
  {
    if op.OpUnlockStuff? || op.OpSleepUntil? || op.OpTerminate? || op.OpCleanWork? {
      BeforeUnlockOk(s, op);
      BeforeUnlockSkipsGone(s, op, t);
      UnlockStuffSkipsGone(BeforeUnlock(s, op).value, t);
    } else {
      match op
      case OpBlock(reason) => BlockSkipsGone(s, reason, t);
      case OpUnblock(u) => UnblockSkipsGone(s, u, t);
      case OpTick(now) => TickSkipsGone(s, now, t);
      case _ =>
    }
  }

  lemma BlockedForGood(s: Sched)
    requires Inv(s) && s.irq == s.postpone == 1 && s.state[s.current] == RUNNING && s.current != s.idle
    ensures var u := Block(s, TERMINATED);
            && u.flag && u.postpone == 1 && u.irq == 1 && u.current == s.current
            && u.state[u.current] == TERMINATED && u.current in u.terminated && u.lastId == s.lastId
  {
  }

  lemma SwitchedAwayIsGone(u: Sched)
    requires Inv(u) && u.flag && u.postpone == u.irq == 1
    requires u.state[u.current] == TERMINATED && u.current in u.terminated
    ensures Gone(UnlockStuff(u), u.current)
  {
    ScheduleSkipsGone(u.(postpone := 0, flag := false), u.current);
  }

  /** terminate_task called with no switch postponed ends the caller for good. */
  lemma TerminateEnds(s: Sched)
    requires Inv(s) && Enabled(s, OpTerminate) && s.postpone == 0 && s.current != s.idle
    ensures Gone(Terminate(s), s.current)
  {
    LockStuffKeeps(s);
    UnblockKeeps(LockStuff(s), s.cleaner);
    var s1 := Unblock(LockStuff(s), s.cleaner);
    BlockedForGood(s1);
    BlockKeeps(s1, TERMINATED);
    SwitchedAwayIsGone(Block(s1, TERMINATED));
  }

  lemma {:induction false} GoneAlways(states: seq<Sched>, ops: seq<Op>, i: nat, n: nat, t: TaskId)
    requires Run(states, ops) && i <= n <= |ops| && Gone(states[i], t)
    ensures Gone(states[n], t)
    decreases n
  {
    if i < n {
      GoneAlways(states, ops, i, n - 1, t);
      InvAlways(states, ops, n - 1);
      GoneStays(states[n - 1], ops[n - 1], t);
    }
  }

  /** In a run, a task that has ended is never running, ready, paused or sleeping again. */
  lemma NeverAgain(states: seq<Sched>, ops: seq<Op>, i: nat, n: nat, t: TaskId)
    requires Run(states, ops) && i <= n <= |ops| && Gone(states[i], t)
    ensures t != states[n].current && t !in states[n].ready && t !in states[n].paused && t !in states[n].sleeping
  {
    GoneAlways(states, ops, i, n, t);
    InvAlways(states, ops, n);
    GoneIsOut(states[n], t);
  }

  /** The drain frees exactly the terminated tasks, each once, and nothing that is running or could run. */
  lemma DrainFreesTerminated(s: Sched, t: TaskId)
    requires Inv(s) && s.state[s.current] == RUNNING
    ensures t in s.state && t !in Drain(s).state <==> t in s.terminated
    ensures multiset(s.terminated)[t] <= 1
    ensures t in s.terminated ==>
              t != s.current && t != s.idle && t !in s.ready && t !in s.paused && t !in s.sleeping
  {
    CountOnce(s.terminated, t);
  }

  /** schedule keeps the set of tasks. */
  lemma ScheduleTasks(s: Sched)
    requires Able(s)
    ensures Schedule(s).state.Keys == s.state.Keys && Schedule(s).lastId == s.lastId
  {
  }

  lemma UnlockStuffTasks(s: Sched)
    requires Able(s)
    ensures UnlockStuff(s).state.Keys == s.state.Keys && UnlockStuff(s).lastId == s.lastId
  {
    ScheduleTasks(s.(postpone := 0, flag := false));
  }

  /** The tasks that exist after a step: creation adds one, the cleaner's work removes the terminated ones. */
  ghost function TasksAfter(s: Sched, op: Op): set<TaskId> {
    match op
    case OpCreate => s.state.Keys + {s.lastId + 1}
    case OpCleanWork => s.state.Keys - Members(s.terminated)
    case _ => s.state.Keys
  }

  lemma TasksStep(s: Sched, op: Op)
    requires Inv(s) && Enabled(s, op)
    ensures Apply(s, op).state.Keys == TasksAfter(s, op)
    ensures Apply(s, op).lastId == if op.OpCreate? then s.lastId + 1 else s.lastId
  {
    match op
    case OpBlock(reason) => EnlistTasks(s, reason);
    case OpUnblock(t) => UnblockTasks(s, t);
    case OpTick(now) => TickTasks(s, now);
    case OpUnlockStuff => CallTasks(s, op);
    case OpSleepUntil(when, now) => CallTasks(s, op);
    case OpTerminate => CallTasks(s, op);
    case OpCleanWork => CallTasks(s, op);
    case _ =>
  }

  lemma CallTasks(s: Sched, op: Op)
    requires Inv(s) && Enabled(s, op)
    requires op.OpUnlockStuff? || op.OpSleepUntil? || op.OpTerminate? || op.OpCleanWork?
    ensures Apply(s, op).state.Keys == TasksAfter(s, op) && Apply(s, op).lastId == s.lastId
  {
    BeforeUnlockOk(s, op);
    BeforeUnlockTasks(s, op);
    UnlockStuffTasks(BeforeUnlock(s, op).value);
  }

  lemma BeforeUnlockTasks(s: Sched, op: Op)
    requires Inv(s) && Enabled(s, op) && BeforeUnlock(s, op).Some?
    ensures BeforeUnlock(s, op).value.state.Keys == TasksAfter(s, op) && BeforeUnlock(s, op).value.lastId == s.lastId
  {
    var s1 := LockStuff(s);
    LockStuffKeeps(s);
    match op
    case OpSleepUntil(when, now) =>
      if when >= now {
        PostponedBlockTasks(s1.(expiry := s1.expiry[s1.current := when]), SLEEPING);
      }
    case OpTerminate =>
      TerminateTasks(s1, s.cleaner);
    case OpCleanWork =>
      DrainKeeps(s);
      PostponedBlockTasks(Drain(s1), PAUSED);
    case _ =>
  }

  lemma TerminateTasks(s: Sched, t: TaskId)
    requires Shape(s) && s.postpone > 0
    ensures var u := Block(Unblock(s, t), TERMINATED); u.state.Keys == s.state.Keys && u.lastId == s.lastId
  {
    UnblockKeeps(s, t);
    UnblockTasks(s, t);
    PostponedBlockTasks(Unblock(s, t), TERMINATED);
  }

  lemma PostponedBlockTasks(s: Sched, reason: TaskState)
    requires s.postpone > 0 && s.current in s.state && BlockReason(reason)
    ensures Block(s, reason).state.Keys == s.state.Keys && Block(s, reason).lastId == s.lastId
  {
  }

  lemma UnblockTasks(s: Sched, t: TaskId)
    requires Able(s)
    ensures Unblock(s, t).state.Keys == s.state.Keys && Unblock(s, t).lastId == s.lastId
  {
  }

  lemma EnlistTasks(s: Sched, reason: TaskState)
    requires Inv(s) && Enabled(s, OpBlock(reason))
    ensures Block(s, reason).state.Keys == s.state.Keys && Block(s, reason).lastId == s.lastId
  {
    if s.current != s.idle {
      LockKeeps(s);
      EnlistKeeps(Lock(s), reason);
      ScheduleTasks(Enlist(Lock(s), reason));
    }
  }

  lemma TickTasks(s: Sched, now: nat)
    requires Inv(s) && Enabled(s, OpTick(now))
    ensures Tick(s, now).state.Keys == s.state.Keys && Tick(s, now).lastId == s.lastId
  {
    LockKeeps(s);
    WakeDueKeeps(Lock(s), now);
    WakeDueTasks(Lock(s), now);
    AccountTasks(WakeDue(Lock(s), now));
  }

  lemma WakeDueTasks(s: Sched, now: nat)
    ensures WakeDue(s, now).state.Keys == s.state.Keys && WakeDue(s, now).lastId == s.lastId
  {
  }

  lemma AccountTasks(s: Sched)
    requires Able(s)
    ensures Account(s).state.Keys == s.state.Keys && Account(s).lastId == s.lastId
  {
    ScheduleTasks(s);
  }

  /** A task that existed and has no record any more. */
  ghost predicate Freed(s: Sched, t: TaskId) {
    t <= s.lastId && t !in s.state
  }

  lemma StaysFreed(s: Sched, op: Op, t: TaskId)
    requires Inv(s) && Enabled(s, op) && Freed(s, t)
    ensures Freed(Apply(s, op), t)
  {
    TasksStep(s, op);
  }

  /** A freed task is never freed a second time: it has no record in any later state. */
  lemma {:induction false} FreedOnce(states: seq<Sched>, ops: seq<Op>, i: nat, n: nat, t: TaskId)
    requires Run(states, ops) && i <= n <= |ops| && Freed(states[i], t)
    ensures Freed(states[n], t)
    decreases n
  {
    if i < n {
      FreedOnce(states, ops, i, n - 1, t);
      InvAlways(states, ops, n - 1);
      StaysFreed(states[n - 1], ops[n - 1], t);
    }
  }
}
