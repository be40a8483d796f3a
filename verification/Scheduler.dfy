/** task.c: the scheduler itself, each call proved to have its effect in the state machine. */
module SchedulerClass {
  import opened SchedulerSpec
  import opened SchedulerInvariant
  import opened Ring
  import opened SchedulerRuns
  import opened SchedulerSleep

  /**
   * The globals of task.c. A ring is a sequence starting at the global head pointer: list_add_tail
   * on the head appends, advancing the head past a deleted node drops the first element.
   */
  class Scheduler {
    var current: TaskId
    var idle: TaskId
    var cleaner: TaskId
    var lastId: TaskId
    var state: map<TaskId, TaskState>
    var expiry: map<TaskId, nat>
    var ready: seq<TaskId>
    var paused: seq<TaskId>
    var sleeping: seq<TaskId>
    var terminated: seq<TaskId>
    var postpone: int
    var flag: bool
    var irq: int
    var slice: nat
    ghost var depth: map<TaskId, int>
    ghost var dispatches: nat

    ghost function St(): Sched
      reads this
    {
      Sched(current, idle, cleaner, lastId, state, expiry, ready, paused, sleeping, terminated,
            postpone, flag, irq, slice, depth, dispatches)
    }

    ghost function Owed(t: TaskId): int
      reads this
    {
      if t in depth then depth[t] else 0
    }

    /** init_scheduler: create_task makes the cleaner ready, then the ready ring is emptied and the cleaner paused. */
    constructor InitScheduler()
      ensures Init(St())
    {
      idle, current, cleaner, lastId := 0, 0, 1, 0;
      state := map[0 := RUNNING];
      expiry := map[0 := 0];
      depth := map[0 := 0];
      ready, paused, sleeping, terminated := [], [], [], [];
      postpone, flag, irq, slice, dispatches := 0, false, 0, TIME_SLICE_LENGTH, 0;
      new;
      var t := CreateTask();
      cleaner := t;
      ready := [];
      paused := [cleaner];
    }

    method LockScheduler()
      modifies this
      ensures St() == Lock(old(St()))
    {
      irq := irq + 1;
      depth := depth[current := Owed(current) + 1];
    }

    method UnlockScheduler()
      modifies this
      ensures St() == Unlock(old(St()))
    {
      irq := irq - 1;
      depth := depth[current := Owed(current) - 1];
    }

    method SwitchToTask(next: TaskId)
      modifies this
      ensures St() == SwitchTo(old(St()), next)
    {
      current := next;
      state := state[next := RUNNING];
    }

    /** The second half of schedule: the head of the ready ring is taken off it and switched to. */
    method TakeHead()
      requires ready != []
      modifies this
      ensures St() == Dispatch(old(St()))
    {
      ghost var s := St();
      var next := ready[0];
      state := state[next := RUNNING];
      ready := ready[1..];
      slice := TIME_SLICE_LENGTH;
      dispatches := dispatches + 1;
      SwitchToTask(next);
      assert s.state[next := RUNNING][next := RUNNING] == s.state[next := RUNNING];
    }

    method CallSchedule()
      modifies this
      ensures St() == Schedule(old(St()))
    {
      if postpone != 0 {
        flag := true;
        return;
      }
      if ready != [] {
        ghost var s := St();
        if TagIn(state, current) == RUNNING && current != idle {
          state := state[current := READY];
          ready := ready + [current];
          assert St() == s.(state := s.state[s.current := READY], ready := s.ready + [s.current]);
        }
        TakeHead();
      } else {
        if TagIn(state, current) == RUNNING {
          return;
        }
        slice := 0;
        SwitchToTask(idle);
      }
    }

    /** The switch of block_task: the running task is tagged and joins the tail of its ring. */
    method JoinRing(reason: TaskState)
      requires BlockReason(reason)
      modifies this
      ensures St() == Enlist(old(St()), reason)
    {
      state := state[current := reason];
      match reason {
        case PAUSED => paused := paused + [current];
        case SLEEPING => sleeping := sleeping + [current];
        case TERMINATED => terminated := terminated + [current];
        case _ =>
      }
    }

    method BlockTask(reason: TaskState)
      requires current in depth && BlockReason(reason)
      modifies this
      ensures St() == Block(old(St()), reason)
    {
      LockScheduler();
      if current == idle {
        UnlockScheduler();
        LockUndone(old(St()));
        return;
      }
      JoinRing(reason);
      CallSchedule();
      UnlockScheduler();
    }

    method UnblockTask(t: TaskId)
      requires current in depth
      modifies this
      ensures St() == Unblock(old(St()), t)
    {
      LockScheduler();
      MoveIfHead(t, old(St()));
      UnlockScheduler();
      LockUndone(Unblock(old(St()), t));
    }

    /** The search through the heads of the two blocked rings; a task that is found becomes ready. */
    method MoveIfHead(t: TaskId, ghost s: Sched)
      requires St() == Lock(s)
      modifies this`sleeping, this`paused, this`state, this`ready
      ensures St() == Lock(Unblock(s, t))
    {
      if sleeping != [] && t == sleeping[0] {
        sleeping := sleeping[1..];
        MakeReady(t, s.(sleeping := s.sleeping[1..]));
      } else if paused != [] && t == paused[0] {
        paused := paused[1..];
        MakeReady(t, s.(paused := s.paused[1..]));
      }
    }

    method MakeReady(t: TaskId, ghost s: Sched)
      requires St() == Lock(s)
      modifies this`state, this`ready
      ensures St() == Lock(Wake(s, t))
    {
      state := state[t := READY];
      ready := ready + [t];
    }

    method CallLockStuff()
      modifies this
      ensures St() == LockStuff(old(St()))
    {
      LockScheduler();
      postpone := postpone + 1;
    }

    method CallUnlockStuff()
      modifies this
      ensures St() == UnlockStuff(old(St()))
    {
      postpone := postpone - 1;
      if postpone == 0 {
        if flag {
          flag := false;
          CallSchedule();
        }
      }
      UnlockScheduler();
    }

    method NanoSleepUntil(when: nat, now: nat)
      modifies this
      ensures St() == SleepUntil(old(St()), when, now)
    {
      CallLockStuff();
      if when < now {
        CallUnlockStuff();
        return;
      }
      expiry := expiry[current := when];
      BlockTask(SLEEPING);
      CallUnlockStuff();
    }

    method TerminateTask()
      modifies this
      ensures St() == Terminate(old(St()))
    {
      CallLockStuff();
      UnblockTask(cleaner);
      BlockTask(TERMINATED);
      CallUnlockStuff();
    }

    /** create_task, when its memory is available; otherwise the source changes nothing here. */
    method CreateTask() returns (t: TaskId)
      modifies this
      ensures St() == Create(old(St())) && t == lastId
    {
      ghost var s := St();
      lastId := lastId + 1;
      t := lastId;
      state := state[t := READY];
      expiry := expiry[t := 0];
      depth := depth[t := 1];
      ready := ready + [t];
      assert St() == s.(lastId := t, state := s.state[t := READY], expiry := s.expiry[t := 0],
                        ready := s.ready + [t], depth := s.depth[t := 1]);
    }

    /** The rotating loop of the timer hook. */
    method ScanSleepers(now: nat)
      requires Distinct(sleeping) && (forall t :: t in sleeping ==> t in state) && current in depth
      modifies this
      ensures St() == WakeDue(old(St()), now)
    {
      ghost var s, p, y := St(), 0, 0;
      ScanStarts(s, now);
      if sleeping == [] {
        ScanEnds(s, now, 0, 0);
        return;
      }
      var anchor, turning := sleeping[0], true;
      while turning
        invariant current in depth && ScanAt(s, now, p, y) && St() == ScanState(s, now, p, y)
        invariant turning ==> sleeping != [] && AnchorSet(s, now, p, y, anchor)
        invariant !turning ==> y == |RingFrom(s.sleeping, p, s.expiry, now)|
        decreases |sleeping|, |sleeping| - y, turning
      {
        p, y, anchor, turning := ScanOnce(now, anchor, s, p, y);
      }
      ScanEnds(s, now, p, y);
    }

    /** One round of the outer loop: wake due heads, then pass the late one behind them. */
    method ScanOnce(now: nat, anchor: TaskId, ghost s: Sched, ghost p: nat, ghost y: nat)
      returns (ghost p': nat, ghost y': nat, anchor': TaskId, turning: bool)
      requires current in depth && ScanAt(s, now, p, y) && St() == ScanState(s, now, p, y)
      requires sleeping != [] && AnchorSet(s, now, p, y, anchor)
      modifies this
      ensures current in depth && ScanAt(s, now, p', y') && St() == ScanState(s, now, p', y')
      ensures turning ==> sleeping != [] && AnchorSet(s, now, p', y', anchor')
      ensures !turning ==> y' == |RingFrom(s.sleeping, p', s.expiry, now)|
      ensures |sleeping| < |old(sleeping)| || (|sleeping| == |old(sleeping)| && y' == y + 1)
    {
      p', y', anchor' := WakeHeads(now, anchor, s, p, y);
      turning := false;
      if sleeping != [] {
        ScanTurns(s, now, p', y');
        turning := TurnHead(anchor', now, s, p', y');
        y' := y' + 1;
      }
    }

    /** Move the head on by one; whether the anchor has not come round yet. */
    method TurnHead(anchor: TaskId, now: nat, ghost s: Sched, ghost p: nat, ghost y: nat) returns (turning: bool)
      requires ScanAt(s, now, p, y) && ScanAt(s, now, p, y + 1) && sleeping != []
      requires St() == ScanState(s, now, p, y)
      requires Turned(s, now, p, y + 1) == Turned(s, now, p, y)[1..] + [Turned(s, now, p, y)[0]]
      modifies this`sleeping
      ensures St() == ScanState(s, now, p, y + 1) && sleeping != []
      ensures turning == (anchor != sleeping[0])
    {
      sleeping := sleeping[1..] + [sleeping[0]];
      turning := anchor != sleeping[0];
    }

    /** The inner loop: wake due sleepers at the head, resetting the anchor after each. */
    method WakeHeads(now: nat, anchor: TaskId, ghost s: Sched, ghost p: nat, ghost y: nat)
      returns (ghost p': nat, ghost y': nat, anchor': TaskId)
      requires current in depth && ScanAt(s, now, p, y) && St() == ScanState(s, now, p, y)
      requires sleeping != [] && AnchorSet(s, now, p, y, anchor)
      modifies this
      ensures current in depth && ScanAt(s, now, p', y') && St() == ScanState(s, now, p', y')
      ensures sleeping != [] ==> AnchorSet(s, now, p', y', anchor') && !IsDue(sleeping[0], s.expiry, now)
      ensures sleeping == [] ==> y' == 0 == |RingFrom(s.sleeping, p', s.expiry, now)|
      ensures |sleeping| < |old(sleeping)| || (sleeping == old(sleeping) && p' == p && y' == y)
    {
      p', y', anchor' := p, y, anchor;
      while sleeping != [] && IsDue(sleeping[0], expiry, now)
        invariant current in depth && ScanAt(s, now, p', y') && St() == ScanState(s, now, p', y')
        invariant sleeping != [] ==> AnchorSet(s, now, p', y', anchor')
        invariant sleeping == [] ==> y' == 0
        invariant |sleeping| < |old(sleeping)| || (sleeping == old(sleeping) && p' == p && y' == y)
        decreases |sleeping|
      {
        anchor' := WakeHead(now, anchor', s, p', y');
        p', y' := p' + y' + 1, 0;
      }
    }

    /** The head is due and is woken; the next head, if any, is the new anchor. */
    method WakeHead(now: nat, anchor: TaskId, ghost s: Sched, ghost p: nat, ghost y: nat) returns (anchor': TaskId)
      requires current in depth && ScanAt(s, now, p, y) && St() == ScanState(s, now, p, y)
      requires sleeping != [] && IsDue(sleeping[0], s.expiry, now)
      modifies this
      ensures current in depth && ScanAt(s, now, p + y + 1, 0) && St() == ScanState(s, now, p + y + 1, 0)
      ensures sleeping != [] ==> AnchorSet(s, now, p + y + 1, 0, anchor')
      ensures sleeping == old(sleeping)[1..]
    {
      ScanWakes(s, now, p, y);
      TurnedPops(s, now, p, y);
      UnblockTask(sleeping[0]);
      TurnedStart(s, now, p + y + 1);
      anchor' := if sleeping != [] then sleeping[0] else anchor;
    }

    /** task_hook_in_timer_handler, run with the interrupt counter at 0. */
    method TaskHookInTimerHandler(now: nat)
      requires Inv(St()) && Enabled(St(), OpTick(now))
      modifies this
      ensures St() == Tick(old(St()), now)
    {
      LockKeeps(St());
      LockScheduler();
      ScanSleepers(now);
      AccountTick();
      UnlockScheduler();
    }

    /** The time-slice half of the timer hook. */
    method AccountTick()
      modifies this
      ensures St() == Account(old(St()))
    {
      if ready != [] {
        if slice <= 1 {
          CallSchedule();
        } else {
          slice := slice - 1;
        }
      }
    }

    /** kernel_clean_work; `freed` lists the tasks given back to the heap, in order. */
    method KernelCleanWork() returns (freed: seq<TaskId>)
      requires Inv(St()) && Enabled(St(), OpCleanWork)
      modifies this
      ensures freed == old(terminated)
      ensures St() == CleanWork(old(St()))
    {
      DrainKeeps(St());
      CallLockStuff();
      ghost var s := St();
      freed := Drain();
      BlockTask(PAUSED);
      CallUnlockStuff();
    }

    /** The loop of kernel_clean_work. */
    method Drain() returns (freed: seq<TaskId>)
      modifies this
      ensures freed == old(terminated) && St() == SchedulerSpec.Drain(old(St()))
    {
      freed := [];
      while terminated != []
        invariant freed + terminated == old(terminated)
        invariant St() == Removed(old(St()), Members(freed)).(terminated := terminated)
        decreases |terminated|
      {
        ghost var gone := freed;
        var task := FreeHead();
        freed := freed + [task];
        RemovedOneMore(old(St()), gone, task);
      }
      assert freed == old(terminated);
    }

    /** One round of the loop: the head leaves the terminated ring and its record is freed. */
    method FreeHead() returns (task: TaskId)
      requires terminated != []
      modifies this
      ensures task == old(terminated)[0]
      ensures St() == Removed(old(St()), {task}).(terminated := old(terminated)[1..])
    {
      task := terminated[0];
      terminated := terminated[1..];
      state := state - {task};
      expiry := expiry - {task};
      depth := depth - {task};
    }
  }

  /** The anchor is where the current round started, and the round is not complete. */
  ghost predicate AnchorSet(s: Sched, now: nat, p: nat, y: nat, anchor: TaskId)
    requires ScanAt(s, now, p, y)
  {
    y < |RingFrom(s.sleeping, p, s.expiry, now)| && anchor == RingFrom(s.sleeping, p, s.expiry, now)[0]
  }

  /** The state without the records of some tasks. */
  ghost function Removed(s: Sched, gone: set<TaskId>): Sched {
    s.(state := s.state - gone, expiry := s.expiry - gone, depth := s.depth - gone)
  }

  lemma RemovedOneMore(s: Sched, freed: seq<TaskId>, t: TaskId)
    ensures forall rest :: Removed(Removed(s, Members(freed)).(terminated := rest), {t}) ==
                           Removed(s, Members(freed + [t])).(terminated := rest)
  {
    assert Members(freed + [t]) == Members(freed) + {t};
    RemoveMore(s.state, Members(freed), t);
    RemoveMore(s.expiry, Members(freed), t);
    RemoveMore(s.depth, Members(freed), t);
  }

  lemma LockUndone(s: Sched)
    requires s.current in s.depth
    ensures Unlock(Lock(s)) == s
  {
    assert s.depth[s.current := Owes(s, s.current) + 1][s.current := s.depth[s.current]] == s.depth;
  }

  lemma RemoveMore<V>(m: map<TaskId, V>, gone: set<TaskId>, t: TaskId)
    ensures (m - gone) - {t} == m - (gone + {t})
  {
  }
}
