/** The scheduler as a state machine: what every call and every timer tick does to the global state. */
module SchedulerSpec {

  /** Task ids are handed out by a counter and never reused. */
  type TaskId = nat

  const TIME_SLICE_LENGTH: nat := 200

  datatype TaskState = RUNNING | READY | PAUSED | SLEEPING | TERMINATED | WAITING_FOR_LOCK

  /**
   * The scheduler's globals and the task fields it uses. The four rings are sequences starting at
   * the ring head. `depth` and `dispatches` are bookkeeping the kernel does not have: how many
   * unlocks each task still owes, and how often a task was taken off the ready ring.
   */
  datatype Sched = Sched(
    current: TaskId,
    idle: TaskId,
    cleaner: TaskId,
    lastId: TaskId,
    state: map<TaskId, TaskState>,
    expiry: map<TaskId, nat>,
    ready: seq<TaskId>,
    paused: seq<TaskId>,
    sleeping: seq<TaskId>,
    terminated: seq<TaskId>,
    postpone: int,
    flag: bool,
    irq: int,
    slice: nat,
    depth: map<TaskId, int>,
    dispatches: nat)

  /** The state field of a task; that of a task without a record could be anything. */
  function TagIn(state: map<TaskId, TaskState>, t: TaskId): TaskState {
    if t in state then state[t] else TERMINATED
  }

  function Tag(s: Sched, t: TaskId): TaskState {
    TagIn(s.state, t)
  }

  function Owes(s: Sched, t: TaskId): int {
    if t in s.depth then s.depth[t] else 0
  }

  /** Every task that is running, idle or on a ring has its record. */
  ghost predicate Able(s: Sched) {
    && s.current in s.state && s.idle in s.state
    && s.depth.Keys == s.state.Keys && s.expiry.Keys == s.state.Keys
    && (forall t :: t in s.ready || t in s.paused || t in s.sleeping || t in s.terminated ==> t in s.state)
  }

  // ---------- single actions ----------

  /** lock_scheduler: the running task takes on one more unlock. */
  function Lock(s: Sched): (r: Sched)
  {
    s.(irq := s.irq + 1, depth := s.depth[s.current := Owes(s, s.current) + 1])
  }

  /** unlock_scheduler, executed by whatever task is running by then. */
  function Unlock(s: Sched): (r: Sched)
  {
    s.(irq := s.irq - 1, depth := s.depth[s.current := Owes(s, s.current) - 1])
  }

  /** switch_to_task: from here on the next task's own continuation runs. */
  function SwitchTo(s: Sched, next: TaskId): (r: Sched)
  {
    s.(current := next, state := s.state[next := RUNNING])
  }

  /** A task that can still run gives way: it rejoins the ready ring at the tail. */
  function Requeued(s: Sched): (r: Sched)
  {
    if Tag(s, s.current) == RUNNING && s.current != s.idle
    then s.(state := s.state[s.current := READY], ready := s.ready + [s.current])
    else s
  }

  /** The head of the ready ring gets the processor and a full time slice. */
  function Dispatch(s: Sched): (r: Sched)
    requires s.ready != []
  {
    SwitchTo(s.(ready := s.ready[1..], slice := TIME_SLICE_LENGTH, dispatches := s.dispatches + 1), s.ready[0])
  }

  /** schedule. */
  function Schedule(s: Sched): (r: Sched)
  {
    if s.postpone != 0 then s.(flag := true)
    else if s.ready != [] then Dispatch(Requeued(s))
    else if Tag(s, s.current) == RUNNING then s
    else SwitchTo(s.(slice := 0), s.idle)
  }

  /** The reasons block_task handles; the others only overwrite the state field. */
  predicate BlockReason(reason: TaskState) {
    reason == PAUSED || reason == SLEEPING || reason == TERMINATED || reason == WAITING_FOR_LOCK
  }

  /** Put the running task on the ring of its new state; lock waiters are on no scheduler ring. */
  function Enlist(s: Sched, reason: TaskState): (r: Sched)
    requires BlockReason(reason)
  {
    var s1 := s.(state := s.state[s.current := reason]);
    match reason
    case PAUSED => s1.(paused := s.paused + [s.current])
    case SLEEPING => s1.(sleeping := s.sleeping + [s.current])
    case TERMINATED => s1.(terminated := s.terminated + [s.current])
    case _ => s1
  }

  /** Move one task to the ready tail. */
  function Wake(s: Sched, t: TaskId): (r: Sched)
  {
    s.(state := s.state[t := READY], ready := s.ready + [t])
  }

  // ---------- the calls ----------

  /** block_task; the idle task cannot block. */
  function Block(s: Sched, reason: TaskState): (r: Sched)
    requires BlockReason(reason)
  {
    if s.current == s.idle then s else Unlock(Schedule(Enlist(Lock(s), reason)))
  }

  /** unblock_task: only the head of the sleeping or of the paused ring is ever moved. */
  function Unblock(s: Sched, t: TaskId): (r: Sched)
  {
    if s.sleeping != [] && s.sleeping[0] == t then Wake(s.(sleeping := s.sleeping[1..]), t)
    else if s.paused != [] && s.paused[0] == t then Wake(s.(paused := s.paused[1..]), t)
    else s
  }

  /** lock_stuff. */
  function LockStuff(s: Sched): (r: Sched)
  {
    Lock(s.(postpone := s.postpone + 1))
  }

  /** unlock_stuff: the outermost one runs a switch that was asked for meanwhile. */
  function UnlockStuff(s: Sched): (r: Sched)
  {
    var s1 := s.(postpone := s.postpone - 1);
    Unlock(if s1.postpone == 0 && s1.flag then Schedule(s1.(flag := false)) else s1)
  }

  /** nano_sleep_until, called at time `now`. */
  function SleepUntil(s: Sched, when: nat, now: nat): (r: Sched)
  {
    var s1 := LockStuff(s);
    if when < now then UnlockStuff(s1)
    else UnlockStuff(Block(s1.(expiry := s1.expiry[s1.current := when]), SLEEPING))
  }

  /** terminate_task: wake the cleaner if it heads its ring, and block for good. */
  function Terminate(s: Sched): (r: Sched)
  {
    UnlockStuff(Block(Unblock(LockStuff(s), s.cleaner), TERMINATED))
  }

  /** create_task: the next id joins the ready tail, its start-up code owing one unlock. */
  function Create(s: Sched): (r: Sched)
  {
    var t := s.lastId + 1;
    s.(lastId := t, state := s.state[t := READY], expiry := s.expiry[t := 0],
       ready := s.ready + [t], depth := s.depth[t := 1])
  }

  /** The tasks on a ring. */
  function Members(ring: seq<TaskId>): (m: set<TaskId>)
    ensures forall t :: t in m <==> t in ring
  {
    set t | t in ring
  }

  /** The cleaner's loop: every terminated task is freed. */
  function Drain(s: Sched): Sched {
    var gone := Members(s.terminated);
    s.(terminated := [], state := s.state - gone, expiry := s.expiry - gone, depth := s.depth - gone)
  }

  /** kernel_clean_work. */
  function CleanWork(s: Sched): Sched {
    UnlockStuff(Block(Drain(LockStuff(s)), PAUSED))
  }

  // ---------- the timer tick ----------

  /** The sleepers that are due, and those that are not, in ring order. */
  function Due(ring: seq<TaskId>, expiry: map<TaskId, nat>, now: nat): seq<TaskId> {
    if ring == [] then []
    else (if IsDue(ring[0], expiry, now) then [ring[0]] else []) + Due(ring[1..], expiry, now)
  }

  function Late(ring: seq<TaskId>, expiry: map<TaskId, nat>, now: nat): seq<TaskId> {
    if ring == [] then []
    else (if IsDue(ring[0], expiry, now) then [] else [ring[0]]) + Late(ring[1..], expiry, now)
  }

  predicate IsDue(t: TaskId, expiry: map<TaskId, nat>, now: nat) {
    t in expiry && expiry[t] <= now
  }

  /** Where the last due sleeper stands, -1 if none is due. */
  function LastDue(ring: seq<TaskId>, expiry: map<TaskId, nat>, now: nat): (j: int)
    ensures -1 <= j < |ring|
    ensures j != -1 ==> IsDue(ring[j], expiry, now)
    ensures forall i :: j < i < |ring| ==> !IsDue(ring[i], expiry, now)
  {
    if ring == [] then -1
    else if IsDue(ring[|ring| - 1], expiry, now) then |ring| - 1
    else LastDue(ring[..|ring| - 1], expiry, now)
  }

  /**
   * The ring the scan leaves: the late sleepers in order, starting after the last one that was
   * due. Nothing moves when none is due.
   */
  function Scanned(ring: seq<TaskId>, expiry: map<TaskId, nat>, now: nat): seq<TaskId> {
    var j := LastDue(ring, expiry, now);
    if j == -1 then ring else ring[j + 1..] + Late(ring[..j], expiry, now)
  }

  /** The sleep scan of the tick: due sleepers join the ready tail in ring order. */
  function WakeDue(s: Sched, now: nat): (r: Sched)
  {
    var due := Due(s.sleeping, s.expiry, now);
    s.(sleeping := Scanned(s.sleeping, s.expiry, now),
       ready := s.ready + due,
       state := map t | t in s.state :: if t in due then READY else s.state[t])
  }

  /** Account for one tick of the running task's time slice. */
  function Account(s: Sched): (r: Sched)
  {
    if s.ready == [] then s
    else if s.slice <= 1 then Schedule(s)
    else s.(slice := s.slice - 1)
  }

  /** task_hook_in_timer_handler at time `now`. */
  function Tick(s: Sched, now: nat): (r: Sched)
  {
    Unlock(Account(WakeDue(Lock(s), now)))
  }

  // ---------- runs ----------

  datatype Op =
    | OpLockScheduler | OpUnlockScheduler
    | OpLockStuff | OpUnlockStuff
    | OpBlock(reason: TaskState)
    | OpUnblock(t: TaskId)
    | OpSleepUntil(when: nat, now: nat)
    | OpTerminate
    | OpCreate
    | OpCleanWork
    | OpTick(now: nat)

  /**
   * When the running code may take a step. Blocking calls start with no lock_scheduler held and
   * by a task that is really running; the tick needs the interrupt unmasked; unlocks match locks.
   */
  predicate Enabled(s: Sched, op: Op)
  {
    match op
    case OpLockScheduler => true
    case OpUnlockScheduler => s.irq > s.postpone
    case OpLockStuff => true
    case OpUnlockStuff => s.postpone > 0 && (s.postpone == 1 && s.flag ==> s.irq == 1)
    case OpBlock(reason) => BlockReason(reason) && s.irq == s.postpone && Tag(s, s.current) == RUNNING
    case OpUnblock(t) => true
    case OpSleepUntil(when, now) => s.irq == s.postpone && Tag(s, s.current) == RUNNING
    case OpTerminate => s.irq == s.postpone && Tag(s, s.current) == RUNNING
    case OpCreate => true
    case OpCleanWork => s.irq == s.postpone && Tag(s, s.current) == RUNNING
    case OpTick(now) => s.irq == 0
  }

  /** The effect of a step. */
  function Apply(s: Sched, op: Op): (r: Sched)
    requires Enabled(s, op)
  {
    match op
    case OpLockScheduler => Lock(s)
    case OpUnlockScheduler => Unlock(s)
    case OpLockStuff => LockStuff(s)
    case OpUnlockStuff => UnlockStuff(s)
    case OpBlock(reason) => Block(s, reason)
    case OpUnblock(t) => Unblock(s, t)
    case OpSleepUntil(when, now) => SleepUntil(s, when, now)
    case OpTerminate => Terminate(s)
    case OpCreate => Create(s)
    case OpCleanWork => CleanWork(s)
    case OpTick(now) => Tick(s, now)
  }
}
