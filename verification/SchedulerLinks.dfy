/**
 * The lists behind the scheduler's state machine: for every step, what becomes of the four global
 * head pointers and of the one list node each task has.
 */
module SchedulerLinks {
  import opened SchedulerSpec
  import opened SchedulerInvariant
  import opened SchedulerRuns
  import opened SchedulerSleep
  import opened Ring
  import opened TaskRings

  function ListsOf(s: Sched): seq<seq<TaskId>> {
    [s.ready, s.paused, s.sleeping, s.terminated]
  }

  /** Four separate rings of task nodes carry the four sequences of the state. */
  ghost predicate Carried(rings: TaskRings, s: Sched)
    reads rings, rings.lists, rings.node.Values
  {
    rings.Valid() && rings.tasks == ListsOf(s) && rings.node.Keys == s.state.Keys
  }

  /** A task tagged RUNNING is on no list. */
  lemma RunningUnlisted(s: Sched)
    requires Able(s) && RingsOk(s) && s.state[s.current] == RUNNING
    ensures !Listed(ListsOf(s), s.current)
  {
  }

  // ---------- single actions ----------

  lemma RequeuedLists(s: Sched)
    requires s.current in s.state
    ensures Requeued(s).state.Keys == s.state.Keys
    ensures ListsOf(Requeued(s)) ==
            if s.state[s.current] == RUNNING && s.current != s.idle then ListsOf(s)[READY_LIST := s.ready + [s.current]]
            else ListsOf(s)
  {
  }

  method LinkRequeued(rings: TaskRings, s: Sched)
    requires Carried(rings, s) && Able(s) && RingsOk(s)
    modifies rings, rings.lists, rings.node.Values
    ensures Carried(rings, Requeued(s)) && rings.node == old(rings.node)
  {
    RequeuedLists(s);
    if s.state[s.current] == RUNNING && s.current != s.idle {
      RunningUnlisted(s);
      rings.Join(READY_LIST, s.current);
    }
  }

  lemma DispatchLists(s: Sched)
    requires s.ready != [] && s.ready[0] in s.state
    ensures Dispatch(s).state.Keys == s.state.Keys
    ensures ListsOf(Dispatch(s)) == ListsOf(s)[READY_LIST := s.ready[1..]]
  {
  }

  method LinkDispatch(rings: TaskRings, s: Sched)
    requires Carried(rings, s) && s.ready != [] && s.ready[0] in s.state
    modifies rings, rings.lists, rings.node.Values
    ensures Carried(rings, Dispatch(s)) && rings.node == old(rings.node)
  {
    DispatchLists(s);
    var next := rings.TakeHead(READY_LIST);
  }

  method LinkSchedule(rings: TaskRings, s: Sched)
    requires Carried(rings, s) && Able(s) && RingsOk(s)
    modifies rings, rings.lists, rings.node.Values
    ensures Carried(rings, Schedule(s)) && rings.node == old(rings.node)
  {
    if s.postpone == 0 && s.ready != [] {
      LinkRequeued(rings, s);
      LinkDispatch(rings, Requeued(s));
    }
  }

  /** The list a blocking task joins. */
  function ListFor(reason: TaskState): nat
    requires BlockReason(reason) && reason != WAITING_FOR_LOCK
  {
    match reason
    case PAUSED => PAUSED_LIST
    case SLEEPING => SLEEPING_LIST
    case _ => TERMINATED_LIST
  }

  lemma EnlistLists(s: Sched, reason: TaskState)
    requires s.current in s.state && BlockReason(reason)
    ensures Enlist(s, reason).state.Keys == s.state.Keys
    ensures reason != WAITING_FOR_LOCK ==>
              var k := ListFor(reason); ListsOf(Enlist(s, reason)) == ListsOf(s)[k := ListsOf(s)[k] + [s.current]]
    ensures reason == WAITING_FOR_LOCK ==> ListsOf(Enlist(s, reason)) == ListsOf(s)
  {
  }

  method LinkEnlist(rings: TaskRings, s: Sched, reason: TaskState)
    requires Carried(rings, s) && Able(s) && RingsOk(s) && s.state[s.current] == RUNNING && BlockReason(reason)
    modifies rings, rings.lists, rings.node.Values
    ensures Carried(rings, Enlist(s, reason)) && rings.node == old(rings.node)
  {
    RunningUnlisted(s);
    EnlistLists(s, reason);
    if reason != WAITING_FOR_LOCK {
      rings.Join(ListFor(reason), s.current);
    }
  }

  /** The lists after the head of list k joined the ready tail. */
  function Moved(tasks: seq<seq<TaskId>>, k: nat): seq<seq<TaskId>>
    requires 0 < k < |tasks| && tasks[k] != []
  {
    tasks[k := tasks[k][1..]][READY_LIST := tasks[READY_LIST] + [tasks[k][0]]]
  }

  method Move(rings: TaskRings, k: nat)
    requires rings.Valid() && 0 < k < 4 && rings.tasks[k] != []
    modifies rings, rings.lists, rings.node.Values
    ensures rings.Valid() && rings.node == old(rings.node) && rings.tasks == old(Moved(rings.tasks, k))
  {
    var t := rings.TakeHead(k);
    rings.Join(READY_LIST, t);
  }

  lemma UnblockLists(s: Sched, t: TaskId)
    requires s.sleeping != [] ==> s.sleeping[0] in s.state
    requires s.paused != [] ==> s.paused[0] in s.state
    ensures Unblock(s, t).state.Keys == s.state.Keys
    ensures ListsOf(Unblock(s, t)) ==
            if s.sleeping != [] && s.sleeping[0] == t then Moved(ListsOf(s), SLEEPING_LIST)
            else if s.paused != [] && s.paused[0] == t then Moved(ListsOf(s), PAUSED_LIST)
            else ListsOf(s)
  {
  }

  method LinkUnblock(rings: TaskRings, s: Sched, t: TaskId)
    requires Carried(rings, s) && Able(s)
    modifies rings, rings.lists, rings.node.Values
    ensures Carried(rings, Unblock(s, t)) && rings.node == old(rings.node)
  {
    UnblockLists(s, t);
    if s.sleeping != [] && rings.Head(SLEEPING_LIST) == t {
      Move(rings, SLEEPING_LIST);
    } else if s.paused != [] && rings.Head(PAUSED_LIST) == t {
      Move(rings, PAUSED_LIST);
    }
  }

  lemma CreateLists(s: Sched)
    ensures Create(s).state.Keys == s.state.Keys + {s.lastId + 1}
    ensures ListsOf(Create(s)) == ListsOf(s)[READY_LIST := s.ready + [s.lastId + 1]]
  {
  }

  method LinkCreate(rings: TaskRings, s: Sched)
    requires Carried(rings, s) && Able(s) && s.lastId + 1 !in s.state
    modifies rings, rings.lists, rings.node.Values
    ensures Carried(rings, Create(s)) && fresh(rings.node.Values - old(rings.node.Values))
  {
    var t := s.lastId + 1;
    CreateLists(s);
    assert !Listed(rings.tasks, t);
    rings.NewTask(t);
    rings.Join(READY_LIST, t);
  }

  /** The lists after the first of the terminated tasks left. */
  ghost predicate Draining(rings: TaskRings, s: Sched, freed: seq<TaskId>)
    reads rings, rings.lists, rings.node.Values
  {
    && rings.Valid() && freed <= s.terminated
    && rings.tasks == ListsOf(s)[TERMINATED_LIST := s.terminated[|freed|..]]
    && rings.node.Keys == s.state.Keys - Members(freed)
  }

  method LinkFree(rings: TaskRings, s: Sched, ghost freed: seq<TaskId>) returns (t: TaskId)
    requires Draining(rings, s, freed) && freed != s.terminated
    modifies rings, rings.lists, rings.node.Values
    ensures Draining(rings, s, freed + [t]) && rings.node.Values <= old(rings.node.Values)
  {
    t := rings.TakeHead(TERMINATED_LIST);
    rings.FreeTask(t);
    assert Members(freed + [t]) == Members(freed) + {t};
  }

  /** The cleaner's loop: each terminated task leaves its list, and its node goes with its record. */
  method LinkDrain(rings: TaskRings, s: Sched)
    requires Carried(rings, s)
    modifies rings, rings.lists, rings.node.Values
    ensures Carried(rings, Drain(s)) && rings.node.Values <= old(rings.node.Values)
  {
    ghost var freed := [];
    while !rings.Empty(TERMINATED_LIST)
      invariant Draining(rings, s, freed) && rings.node.Values <= old(rings.node.Values)
      decreases |s.terminated| - |freed|
    {
      var t := LinkFree(rings, s, freed);
      freed := freed + [t];
    }
    assert freed == s.terminated;
  }

  // ---------- the sleep scan ----------

  lemma WakeLists(s: Sched, now: nat, p: nat, y: nat, q: nat)
    requires ScanAt(s, now, p, y) && Turned(s, now, p, y) != [] && IsDue(Turned(s, now, p, y)[0], s.expiry, now)
    requires Able(s) && q == p + y + 1
    ensures ScanAt(s, now, q, 0)
    ensures ListsOf(ScanState(s, now, q, 0)) == Moved(ListsOf(ScanState(s, now, p, y)), SLEEPING_LIST)
  {
    ScanWakes(s, now, p, y);
    TurnedPops(s, now, p, y);
    assert s.sleeping[p + y] in s.sleeping;
    UnblockLists(ScanState(s, now, p, y), Turned(s, now, p, y)[0]);
  }

  lemma TurnLists(s: Sched, now: nat, p: nat, y: nat)
    requires ScanAt(s, now, p, y) && ScanAt(s, now, p, y + 1) && Turned(s, now, p, y) != []
    requires Turned(s, now, p, y + 1) == Turned(s, now, p, y)[1..] + [Turned(s, now, p, y)[0]]
    ensures var ring := Turned(s, now, p, y);
            ListsOf(ScanState(s, now, p, y + 1)) == ListsOf(ScanState(s, now, p, y))[SLEEPING_LIST := ring[1..] + [ring[0]]]
  {
  }

  /** Where the scan stands, on the lists. */
  ghost predicate Scanning(rings: TaskRings, s: Sched, now: nat, p: nat, y: nat)
    reads rings, rings.lists, rings.node.Values
  {
    ScanAt(s, now, p, y) && rings.Valid() && rings.tasks == ListsOf(ScanState(s, now, p, y))
  }

  /** The anchor is where the current round started; the scan goes on until it comes round. */
  ghost predicate Round(s: Sched, now: nat, p: nat, y: nat, anchor: TaskId, turning: bool)
    requires p <= |s.sleeping|
  {
    var ring := RingFrom(s.sleeping, p, s.expiry, now);
    && (turning <==> y < |ring|)
    && (turning ==> anchor == ring[0])
  }

  /** A due head is woken, and the next head is the new anchor. */
  method LinkWake(rings: TaskRings, s: Sched, now: nat, anchor: TaskId, ghost p: nat, ghost y: nat)
    returns (anchor': TaskId, turning: bool, ghost p': nat, ghost y': nat)
    requires Scanning(rings, s, now, p, y) && Able(s) && Turned(s, now, p, y) != []
    requires IsDue(Turned(s, now, p, y)[0], s.expiry, now)
    modifies rings, rings.lists, rings.node.Values
    ensures Scanning(rings, s, now, p', y') && rings.node == old(rings.node)
    ensures Round(s, now, p', y', anchor', turning)
    ensures (p' == p && y' == y + 1) || p < p'
  {
    p', y' := p + y + 1, 0;
    MoveDue(rings, s, now, p, y, p');
    anchor', turning := NewAnchor(rings, s, now, anchor, p');
  }

  method MoveDue(rings: TaskRings, s: Sched, now: nat, ghost p: nat, ghost y: nat, ghost q: nat)
    requires Scanning(rings, s, now, p, y) && Able(s) && Turned(s, now, p, y) != []
    requires IsDue(Turned(s, now, p, y)[0], s.expiry, now) && q == p + y + 1
    modifies rings, rings.lists, rings.node.Values
    ensures Scanning(rings, s, now, q, 0) && rings.node == old(rings.node)
  {
    WakeLists(s, now, p, y, q);
    Move(rings, SLEEPING_LIST);
  }

  /** Where the scan stands right behind a woken task, the head starts a new round. */
  method NewAnchor(rings: TaskRings, s: Sched, now: nat, anchor: TaskId, ghost p: nat)
    returns (anchor': TaskId, turning: bool)
    requires Scanning(rings, s, now, p, 0)
    ensures Round(s, now, p, 0, anchor', turning)
  {
    TurnedStart(s, now, p);
    turning := !rings.Empty(SLEEPING_LIST);
    anchor' := if turning then rings.Head(SLEEPING_LIST) else anchor;
  }

  /** A late head is passed. */
  method LinkTurn(rings: TaskRings, s: Sched, now: nat, anchor: TaskId, ghost p: nat, ghost y: nat)
    returns (anchor': TaskId, turning: bool, ghost p': nat, ghost y': nat)
    requires Scanning(rings, s, now, p, y) && Round(s, now, p, y, anchor, true)
    requires !IsDue(Turned(s, now, p, y)[0], s.expiry, now)
    modifies rings, rings.lists
    ensures Scanning(rings, s, now, p', y') && rings.node == old(rings.node)
    ensures Round(s, now, p', y', anchor', turning)
    ensures (p' == p && y' == y + 1) || p < p'
  {
    ScanTurns(s, now, p, y);
    TurnLists(s, now, p, y);
    rings.Turn(SLEEPING_LIST);
    p', y', anchor' := p, y + 1, anchor;
    turning := rings.Head(SLEEPING_LIST) != anchor;
  }

  /** One move of the scan. */
  method LinkScan(rings: TaskRings, s: Sched, now: nat, anchor: TaskId, ghost p: nat, ghost y: nat)
    returns (anchor': TaskId, turning: bool, ghost p': nat, ghost y': nat)
    requires Scanning(rings, s, now, p, y) && Able(s) && Round(s, now, p, y, anchor, true)
    modifies rings, rings.lists, rings.node.Values
    ensures Scanning(rings, s, now, p', y') && rings.node == old(rings.node)
    ensures Round(s, now, p', y', anchor', turning)
    ensures (p' == p && y' == y + 1) || p < p'
  {
    assert rings.tasks[SLEEPING_LIST] == Turned(s, now, p, y);
    if IsDue(rings.Head(SLEEPING_LIST), s.expiry, now) {
      anchor', turning, p', y' := LinkWake(rings, s, now, anchor, p, y);
    } else {
      anchor', turning, p', y' := LinkTurn(rings, s, now, anchor, p, y);
    }
  }

  /** The timer hook's scan: the head moves on over the late sleepers until it has gone all the way round. */
  method LinkWakeDue(rings: TaskRings, s: Sched, now: nat)
    requires Carried(rings, s) && Able(s) && RingsOk(s)
    modifies rings, rings.lists, rings.node.Values
    ensures Carried(rings, WakeDue(s, now)) && rings.node == old(rings.node)
  {
    ghost var p: nat, y: nat := 0, 0;
    ScanStarts(s, now);
    var turning := s.sleeping != [];
    var anchor := if turning then s.sleeping[0] else 0;
    while turning
      invariant Scanning(rings, s, now, p, y) && rings.node == old(rings.node)
      invariant Round(s, now, p, y, anchor, turning)
      decreases |s.sleeping| - p, |RingFrom(s.sleeping, p, s.expiry, now)| - y
    {
      anchor, turning, p, y := LinkScan(rings, s, now, anchor, p, y);
    }
    ScanEnds(s, now, p, y);
  }

  // ---------- the calls ----------

  method LinkBlock(rings: TaskRings, s: Sched, reason: TaskState)
    requires Carried(rings, s) && Inv(s) && BlockReason(reason) && s.irq == s.postpone && s.state[s.current] == RUNNING
    modifies rings, rings.lists, rings.node.Values
    ensures Carried(rings, Block(s, reason)) && rings.node == old(rings.node)
  {
    if s.current != s.idle {
      LockKeeps(s);
      EnlistKeeps(Lock(s), reason);
      LinkEnlist(rings, Lock(s), reason);
      LinkSchedule(rings, Enlist(Lock(s), reason));
    }
  }

  method LinkUnlockStuff(rings: TaskRings, s: Sched)
    requires Carried(rings, s) && Able(s) && RingsOk(s)
    modifies rings, rings.lists, rings.node.Values
    ensures Carried(rings, UnlockStuff(s)) && rings.node == old(rings.node)
  {
    if s.postpone == 1 && s.flag {
      LinkSchedule(rings, s.(postpone := 0, flag := false));
    }
  }

  lemma SleeperMayBlock(s: Sched, when: nat)
    requires Inv(s) && s.irq == s.postpone && s.state[s.current] == RUNNING
    ensures var s2 := LockStuff(s).(expiry := LockStuff(s).expiry[s.current := when]);
            && Inv(s2) && s2.irq == s2.postpone && s2.state[s2.current] == RUNNING
            && ListsOf(s2) == ListsOf(s) && s2.state == s.state
  {
    LockStuffKeeps(s);
  }

  method LinkSleepUntil(rings: TaskRings, s: Sched, when: nat, now: nat)
    requires Carried(rings, s) && Inv(s) && Enabled(s, OpSleepUntil(when, now))
    modifies rings, rings.lists, rings.node.Values
    ensures Carried(rings, SleepUntil(s, when, now)) && rings.node == old(rings.node)
  {
    LockStuffKeeps(s);
    var s1 := LockStuff(s);
    if when < now {
      LinkUnlockStuff(rings, s1);
    } else {
      SleeperMayBlock(s, when);
      var s2 := s1.(expiry := s1.expiry[s1.current := when]);
      BlockKeeps(s2, SLEEPING);
      LinkBlock(rings, s2, SLEEPING);
      LinkUnlockStuff(rings, Block(s2, SLEEPING));
    }
  }

  lemma TerminateParts(s: Sched)
    requires Inv(s) && Enabled(s, OpTerminate)
    ensures Inv(LockStuff(s)) && ListsOf(LockStuff(s)) == ListsOf(s) && LockStuff(s).state == s.state
    ensures var s1 := Unblock(LockStuff(s), s.cleaner);
            && Inv(s1) && s1.irq == s1.postpone && s1.state[s1.current] == RUNNING
            && Inv(Block(s1, TERMINATED))
  {
    LockStuffKeeps(s);
    UnblockKeeps(LockStuff(s), s.cleaner);
    BlockKeeps(Unblock(LockStuff(s), s.cleaner), TERMINATED);
  }

  method LinkTerminate(rings: TaskRings, s: Sched)
    requires Carried(rings, s) && Inv(s) && Enabled(s, OpTerminate)
    modifies rings, rings.lists, rings.node.Values
    ensures Carried(rings, Terminate(s)) && rings.node == old(rings.node)
  {
    var s1 := Unblock(LockStuff(s), s.cleaner);
    TerminateParts(s);
    LinkUnblock(rings, LockStuff(s), s.cleaner);
    LinkBlock(rings, s1, TERMINATED);
    LinkUnlockStuff(rings, Block(s1, TERMINATED));
  }

  method LinkCleanWork(rings: TaskRings, s: Sched)
    requires Carried(rings, s) && Inv(s) && Enabled(s, OpCleanWork)
    modifies rings, rings.lists, rings.node.Values
    ensures Carried(rings, CleanWork(s)) && rings.node.Values <= old(rings.node.Values)
  {
    LockStuffKeeps(s);
    DrainKeeps(LockStuff(s));
    var s1 := Drain(LockStuff(s));
    BlockKeeps(s1, PAUSED);
    LinkDrain(rings, LockStuff(s));
    LinkBlock(rings, s1, PAUSED);
    LinkUnlockStuff(rings, Block(s1, PAUSED));
  }

  method LinkTick(rings: TaskRings, s: Sched, now: nat)
    requires Carried(rings, s) && Inv(s) && Enabled(s, OpTick(now))
    modifies rings, rings.lists, rings.node.Values
    ensures Carried(rings, Tick(s, now)) && rings.node == old(rings.node)
  {
    LockKeeps(s);
    WakeDueKeeps(Lock(s), now);
    LinkWakeDue(rings, Lock(s), now);
    var s1 := WakeDue(Lock(s), now);
    if s1.ready != [] && s1.slice <= 1 {
      LinkSchedule(rings, s1);
    }
  }

  // ---------- runs ----------

  /** init_scheduler: the cleaner, just made ready, is taken over by the paused list. */
  method Park(rings: TaskRings, t: TaskId)
    requires rings.Valid() && t in rings.node && rings.tasks == [[], [], [], []]
    modifies rings, rings.lists, rings.node.Values
    ensures rings.Valid() && rings.tasks == [[], [t], [], []] && rings.node == old(rings.node)
  {
    rings.Join(READY_LIST, t);
    rings.Clear(READY_LIST);
    assert forall k :: 0 <= k < 4 ==> rings.tasks[k] == [];
    rings.Join(PAUSED_LIST, t);
    assert rings.tasks[PAUSED_LIST] == [t] && forall k :: 0 <= k < 4 && k != PAUSED_LIST ==> rings.tasks[k] == [];
  }

  /** The boot state's lists. */
  method LinkInit(s: Sched) returns (rings: TaskRings)
    requires Init(s)
    ensures Carried(rings, s)
  {
    rings := new TaskRings();
    rings.NewTask(s.idle);
    rings.NewTask(s.cleaner);
    Park(rings, s.cleaner);
  }

  /** Every step of every run leaves four separate well-formed rings that carry the new state's sequences. */
  method LinkStep(rings: TaskRings, s: Sched, op: Op)
    requires Carried(rings, s) && Inv(s) && Enabled(s, op)
    modifies rings, rings.lists, rings.node.Values
    ensures Carried(rings, Apply(s, op))
  {
    match op {
      case OpLockScheduler =>
      case OpUnlockScheduler =>
      case OpLockStuff =>
      case OpUnlockStuff => LinkUnlockStuff(rings, s);
      case OpBlock(reason) => LinkBlock(rings, s, reason);
      case OpUnblock(t) => LinkUnblock(rings, s, t);
      case OpSleepUntil(when, now) => LinkSleepUntil(rings, s, when, now);
      case OpTerminate => LinkTerminate(rings, s);
      case OpCreate => LinkCreate(rings, s);
      case OpCleanWork => LinkCleanWork(rings, s);
      case OpTick(now) => LinkTick(rings, s, now);
    }
  }
}
