/** The cooperative threads of the emulator as a state machine: every call the running guest thread can make,
    and the executor's step that picks the next thread and switches to it. */
module Threads {
  import opened Options

  type ThreadId = nat
  type MutexId = nat
  type SemId = nat
  type Context = seq<int>     // guest registers

  /** What a thread waits for. A suspended thread keeps what it waited for before. */
  datatype Block =
    | NotBlocked
    | Sleeping(until: int)
    | OnMutex(mutex: MutexId)
    | OnSemaphore(sem: SemId)
    | Joining(joinee: ThreadId, ptr: nat)
    | Suspended(count: nat, previous: Block)

  /** `guest` holds the registers of a thread that is not running, `coroutine` its host call stack. */
  datatype Thread = Thread(active: bool, block: Block, result: Option<int>, guest: Option<Context>,
                           coroutine: Option<ThreadId>)

  datatype MutexKind = Normal | ErrorCheck | Recursive

  datatype Mutex = Mutex(kind: MutexKind, waiting: nat, locked: Option<(ThreadId, nat)>)

  /** Guest code of the current thread runs; or it has yielded; or its coroutine has returned. */
  datatype Phase = Running | Yielded | Exited

  /** `held` is the coroutine in the executor's hands. */
  datatype State = State(threads: seq<Thread>, current: ThreadId, cpu: Context, held: Option<ThreadId>, phase: Phase,
                         mutexes: map<MutexId, Mutex>, mutexCount: nat, sems: map<SemId, int>, mem: map<nat, int>)

  const NEW_CONTEXT: Context := []

  function Initial(cpu: Context): State {
    State([Thread(true, NotBlocked, None, None, None)], 0, cpu, Some(0), Running, map[], 0, map[], map[])
  }

  /** What the thread waits for, looking through a suspension. */
  function Underlying(b: Block): Block {
    match b
    case Suspended(_, p) => p
    case _ => b
  }

  function WithBlock(s: State, t: ThreadId, b: Block): State
    requires t < |s.threads|
  {
    s.(threads := s.threads[t := s.threads[t].(block := b)])
  }

  /** `yield_thread` */
  function YieldOn(s: State, b: Block): State
    requires s.current < |s.threads|
  {
    WithBlock(s, s.current, b).(phase := Yielded)
  }

  // ---------- mutexes ----------

  /** Result of a mutex call. `Blocks`: the call returns `Ok(1)` once the scheduler wakes the thread. `Panics`: the
      original panics. */
  datatype Outcome = Ok(count: nat) | Busy | Deadlock | NotPermitted | Blocks | Panics

  function IsLocked(s: State, m: MutexId): bool {
    m in s.mutexes && s.mutexes[m].locked.Some?
  }

  function WithLock(s: State, m: MutexId, l: Option<(ThreadId, nat)>): State
    requires m in s.mutexes
  {
    s.(mutexes := s.mutexes[m := s.mutexes[m].(locked := l)])
  }

  function LockOutcome(s: State, m: MutexId): Outcome
    requires m in s.mutexes
  {
    match s.mutexes[m].locked
    case None => Ok(1)
    case Some((owner, count)) =>
      if owner != s.current then Blocks
      else match s.mutexes[m].kind
        case Normal => Panics
        case ErrorCheck => Deadlock
        case Recursive => Ok(count + 1)
  }

  function LockMutex(s: State, m: MutexId): State
    requires s.current < |s.threads| && m in s.mutexes
  {
    match LockOutcome(s, m)
    case Ok(n) => WithLock(s, m, Some((s.current, n)))
    case Blocks =>
      YieldOn(s.(mutexes := s.mutexes[m := s.mutexes[m].(waiting := s.mutexes[m].waiting + 1)]), OnMutex(m))
    case _ => s
  }

  function UnlockOutcome(s: State, m: MutexId): Outcome
    requires m in s.mutexes
  {
    var x := s.mutexes[m];
    match x.locked
    case None => if x.kind.Normal? then Panics else NotPermitted
    case Some((owner, count)) =>
      if owner != s.current && !x.kind.Normal? then NotPermitted
      else if count <= 1 then Ok(0)
      else Ok(count - 1)
  }

  function UnlockMutex(s: State, m: MutexId): State
    requires m in s.mutexes
  {
    match UnlockOutcome(s, m)
    case Ok(n) => WithLock(s, m, if n == 0 then None else Some((s.mutexes[m].locked.value.0, n)))
    case _ => s
  }

  function DestroyOutcome(s: State, m: MutexId): Outcome
    requires m in s.mutexes
  {
    if s.mutexes[m].locked.Some? || s.mutexes[m].waiting != 0 then Busy else Ok(0)
  }

  function DestroyMutex(s: State, m: MutexId): State
    requires m in s.mutexes
  {
    if DestroyOutcome(s, m).Busy? then s else s.(mutexes := s.mutexes - {m})
  }

  // ---------- the scheduler ----------

  /** Whether the scheduler may pick a thread when it looks at it at time `now`. */
  predicate Runnable(s: State, t: ThreadId, now: int)
    requires t < |s.threads|
  {
    s.threads[t].active &&
    match s.threads[t].block
    case NotBlocked => true
    case Sleeping(until) => until <= now
    case OnMutex(m) => !IsLocked(s, m)
    case OnSemaphore(x) => x in s.sems && s.sems[x] > 0
    case Joining(j, _) => j < |s.threads| && !s.threads[j].active
    case Suspended(_, _) => false
  }

  /** The `i`-th thread after the current one, cyclically. */
  function Candidate(s: State, i: nat): (t: ThreadId)
    requires |s.threads| > 0
    ensures t < |s.threads|
  {
    (s.current + 1 + i) % |s.threads|
  }

  /** First runnable thread from the `i`-th candidate on; `clock(t)` is the time when `t` is examined. */
  function Pick(s: State, clock: ThreadId -> int, i: nat): (r: Option<ThreadId>)
    requires |s.threads| > 0 && i <= |s.threads|
    ensures r.Some? ==> r.value < |s.threads| && Runnable(s, r.value, clock(r.value))
    decreases |s.threads| - i
  {
    if i == |s.threads| then None
    else if Runnable(s, Candidate(s, i), clock(Candidate(s, i))) then Some(Candidate(s, i))
    else Pick(s, clock, i + 1)
  }

  /** Some active thread is asleep, so the scheduler waits instead of reporting a deadlock. */
  predicate SomeoneSleeps(s: State) {
    exists t :: 0 <= t < |s.threads| && s.threads[t].active && s.threads[t].block.Sleeping?
  }

  /** `relock_unblocked_mutex_for_thread` */
  function Relock(s: State, t: ThreadId, m: MutexId): State
    requires m in s.mutexes
  {
    var x := s.mutexes[m];
    s.(mutexes := s.mutexes[m := x.(locked := Some((t, 1)), waiting := if x.waiting > 0 then x.waiting - 1 else 0)])
  }

  /** What waking a runnable thread does before it is switched to. */
  function Wake(s: State, t: ThreadId): State
    requires t < |s.threads|
  {
    var s' := WithBlock(s, t, NotBlocked);
    match s.threads[t].block
    case OnMutex(m) => if m in s.mutexes then Relock(s', t, m) else s'
    case OnSemaphore(x) => if x in s.sems then s'.(sems := s.sems[x := s.sems[x] - 1]) else s'
    case Joining(j, ptr) =>
      if ptr != 0 && j < |s.threads| && s.threads[j].result.Some? then
        s'.(mem := s.mem[ptr := s.threads[j].result.value])
      else s'
    case _ => s'
  }

  /** `switch_thread` */
  function Switch(s: State, t: ThreadId): State
    requires s.current < |s.threads| && t < |s.threads| && t != s.current && s.threads[t].guest.Some?
  {
    var left := s.threads[s.current].(guest := Some(s.cpu), coroutine := s.held);
    var next := s.threads[t].(guest := None, coroutine := None);
    s.(threads := s.threads[s.current := left][t := next], cpu := s.threads[t].guest.value,
       held := s.threads[t].coroutine, current := t)
  }

  /** Wake, switch if it is another thread, resume. */
  function Resume(s: State, t: ThreadId): State
    requires s.current < |s.threads| && t < |s.threads| && (t != s.current ==> s.threads[t].guest.Some?)
  {
    var s1 := Wake(s, t);
    (if t == s.current then s1 else Switch(s1, t)).(phase := Running)
  }

  // ---------- suspension ----------

  function SuspendBlock(b: Block): Block {
    match b
    case Suspended(n, p) => Suspended(n + 1, p)
    case _ => Suspended(1, b)
  }

  function ResumeBlock(b: Block): Block {
    match b
    case Suspended(n, p) => if n > 1 then Suspended(n - 1, p) else p
    case _ => NotBlocked
  }

  // ---------- events ----------

  datatype Event =
    | Compute(cpu: Context)
    | Create
    | InitMutex(kind: MutexKind)
    | Destroy(m: MutexId)
    | Lock(m: MutexId)
    | Unlock(m: MutexId)
    | InitSem(x: SemId, value: nat)
    | SemUp(x: SemId)
    | SemDown(x: SemId, wait: bool)
    | Sleep(until: int)
    | Join(joinee: ThreadId, ptr: nat)
    | YieldNow
    | Suspend(t: ThreadId)
    | Unsuspend(t: ThreadId)
    | Exit(result: int)
    | Schedule(clock: ThreadId -> int)

  /** A thread that has suspended itself has to resume itself before it gives up control. */
  predicate CanYield(s: State)
    requires s.current < |s.threads|
  {
    !s.threads[s.current].block.Suspended?
  }

  /** What callers owe: existing handles, no self-deadlock on a plain mutex, no yield while suspended by itself, and a
      program that is not deadlocked when the scheduler runs. The main thread's routine never returns. */
  predicate Enabled(s: State, e: Event) {
    && s.current < |s.threads|
    && (e.Schedule? <==> !s.phase.Running?)
    && match e
       case Destroy(m) => m in s.mutexes
       case Lock(m) =>
         m in s.mutexes && !LockOutcome(s, m).Panics? && (LockOutcome(s, m).Blocks? ==> CanYield(s))
       case Unlock(m) => m in s.mutexes && !UnlockOutcome(s, m).Panics?
       case SemUp(x) => x in s.sems
       case SemDown(x, wait) => x in s.sems && (s.sems[x] <= 0 && wait ==> CanYield(s))
       case Sleep(_) => CanYield(s)
       case Join(j, _) => j < |s.threads| && CanYield(s)
       case YieldNow => CanYield(s)
       case Suspend(t) => t < |s.threads|
       case Unsuspend(t) => t < |s.threads| && s.threads[t].block.Suspended?
       case Exit(_) => s.current != 0
       case Schedule(clock) => Pick(s, clock, 0).None? ==> SomeoneSleeps(s)
       case _ => true
  }

  /** Whether the event makes the current thread yield with a reason. */
  predicate Blocking(s: State, e: Event)
    requires Enabled(s, e)
  {
    match e
    case Lock(m) => LockOutcome(s, m).Blocks?
    case SemDown(x, wait) => s.sems[x] <= 0 && wait
    case Sleep(_) => true
    case Join(_, _) => true
    case YieldNow => true
    case _ => false
  }

  /** The original's own assertions and unwraps on the way to thread `t`. */
  predicate WakeAsserts(s: State, t: ThreadId)
    requires s.current < |s.threads| && t < |s.threads|
  {
    && (match s.threads[t].block
        case OnMutex(m) => m in s.mutexes && s.mutexes[m].locked.None? && s.mutexes[m].waiting > 0
        case OnSemaphore(x) => x in s.sems
        case Joining(j, _) => j < |s.threads| && s.threads[j].result.Some?
        case _ => true)
    && (if t == s.current then s.held.Some? else
          && s.threads[t].active && s.threads[t].guest.Some? && s.threads[t].coroutine.Some?
          && s.threads[s.current].guest.None? && (s.held.Some? || !s.threads[s.current].active))
  }

  /** The original's own assertions and unwraps during an event. */
  predicate Asserts(s: State, e: Event)
    requires Enabled(s, e)
  {
    && (Blocking(s, e) ==> s.threads[s.current].block.NotBlocked?)
    && match e
       case Unlock(m) =>
         UnlockOutcome(s, m).Ok? && UnlockOutcome(s, m).count > 0 ==> s.mutexes[m].kind.Recursive?
       case Unsuspend(t) => s.threads[t].block.count > 0
       case Schedule(clock) =>
         && (forall t :: 0 <= t < |s.threads| && s.threads[t].block.Suspended? ==> s.threads[t].block.count > 0)
         && (Pick(s, clock, 0).Some? ==> WakeAsserts(s, Pick(s, clock, 0).value))
       case _ => true
  }

  function Step(s: State, e: Event): State
    requires Enabled(s, e) && Asserts(s, e)
  {
    match e
    case Compute(c) => s.(cpu := c)
    case Create => s.(threads := s.threads + [Thread(true, NotBlocked, None, Some(NEW_CONTEXT), Some(|s.threads|))])
    case InitMutex(k) => s.(mutexes := s.mutexes[s.mutexCount := Mutex(k, 0, None)], mutexCount := s.mutexCount + 1)
    case Destroy(m) => DestroyMutex(s, m)
    case Lock(m) => LockMutex(s, m)
    case Unlock(m) => UnlockMutex(s, m)
    case InitSem(x, v) => if x in s.sems then s else s.(sems := s.sems[x := v])
    case SemUp(x) => s.(sems := s.sems[x := s.sems[x] + 1])
    case SemDown(x, wait) =>
      if s.sems[x] > 0 then s.(sems := s.sems[x := s.sems[x] - 1])
      else if wait then YieldOn(s, OnSemaphore(x)) else s
    case Sleep(until) => YieldOn(s, Sleeping(until))
    case Join(j, ptr) => YieldOn(s, Joining(j, ptr))
    case YieldNow => YieldOn(s, NotBlocked)
    case Suspend(t) => WithBlock(s, t, SuspendBlock(s.threads[t].block))
    case Unsuspend(t) => WithBlock(s, t, ResumeBlock(s.threads[t].block))
    case Exit(r) =>
      s.(threads := s.threads[s.current := s.threads[s.current].(active := false, result := Some(r))],
         held := None, phase := Exited)
    case Schedule(clock) =>
      match Pick(s, clock, 0)
      case None => s
      case Some(t) => Resume(s, t)
  }
}
