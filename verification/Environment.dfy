/** The emulator's environment: the fields that its thread, mutex and semaphore calls update, and the executor's turn.
    Each method is proved against the state machine. */
module Environments {
  import opened Options
  import opened Threads
  import opened ThreadInvariant
  import opened ThreadRuns
  import opened ThreadLocks
  import opened ThreadWaking

  /** The call had the effect of the event, none of the original's assertions failed, and the invariant holds again. */
  ghost predicate Does(s: State, e: Event, s': State) {
    Enabled(s, e) && Asserts(s, e) && s' == Step(s, e) && Inv(s')
  }

  lemma Done(s: State, e: Event)
    requires Inv(s) && Enabled(s, e)
    ensures Asserts(s, e) && Does(s, e, Step(s, e))
  {
    hide Inv;
    InvImpliesAsserts(s, e);
    StepKeepsInv(s, e);
  }

  lemma InvCurrent(s: State)
    requires Inv(s)
    ensures s.current < |s.threads|
  {
  }

  /** Some thread can run, or will be able to when it wakes up. */
  ghost predicate NotDeadlocked(s: State) {
    SomeoneSleeps(s) || exists t :: Due(s, t, 0)
  }

  // ---------- one pass of the scheduler ----------

  /** The first `|times|` candidates were examined at these times and none could run. */
  ghost predicate Fruitless(s: State, times: seq<int>)
    requires |times| <= |s.threads|
  {
    forall k :: 0 <= k < |times| ==> !Due(s, Candidate(s, k), times[k])
  }

  /** The clock that shows each examined candidate its time, the `k`-th candidate `times[k]`. */
  ghost function ClockOf(s: State, times: seq<int>, otherwise: int): ThreadId -> int {
    (t: ThreadId) => if 0 <= Distance(s, t) < |times| then times[Distance(s, t)] else otherwise
  }

  lemma {:induction false} PickFirst(s: State, times: seq<int>, lo: int, i: nat)
    requires s.current < |s.threads| && 0 < |times| <= |s.threads| && i < |times|
    requires Fruitless(s, times[..|times| - 1])
    requires Due(s, Candidate(s, |times| - 1), times[|times| - 1])
    ensures Pick(s, ClockOf(s, times, lo), i) == Some(Candidate(s, |times| - 1))
    decreases |times| - i
  {
    CandidateAt(s, i);
    RunnableIsDue(s, Candidate(s, i), times[i]);
    hide Due, Runnable;
    if i < |times| - 1 {
      assert !Due(s, Candidate(s, i), times[..|times| - 1][i]);
      PickFirst(s, times, lo, i + 1);
    }
  }

  lemma {:induction false} PickNone(s: State, times: seq<int>, lo: int, i: nat)
    requires s.current < |s.threads| == |times| && Fruitless(s, times) && i <= |times|
    ensures Pick(s, ClockOf(s, times, lo), i).None?
    decreases |times| - i
  {
    if i < |times| {
      CandidateAt(s, i);
      RunnableIsDue(s, Candidate(s, i), times[i]);
      hide Due, Runnable;
      PickNone(s, times, lo, i + 1);
    }
  }

  ghost predicate SleeperAt(s: State, k: nat)
    requires |s.threads| > 0
  {
    s.threads[Candidate(s, k)].active && s.threads[Candidate(s, k)].block.Sleeping?
  }

  ghost function UntilAt(s: State, k: nat): int
    requires |s.threads| > 0 && SleeperAt(s, k)
  {
    s.threads[Candidate(s, k)].block.until
  }

  /** How a thread that cannot run changes `next_awakening`. */
  ghost function Earlier(th: Thread, d: Option<int>): Option<int> {
    if !(th.active && th.block.Sleeping?) then d
    else if d.Some? && d.value < th.block.until then d
    else Some(th.block.until)
  }

  /** `next_awakening` after `n` candidates. */
  ghost predicate EarliestAmong(s: State, n: nat, d: Option<int>)
    requires |s.threads| > 0
  {
    && (forall k: nat :: k < n && SleeperAt(s, k) ==> d.Some? && d.value <= UntilAt(s, k))
    && (d.Some? ==> exists k: nat :: k < n && SleeperAt(s, k) && UntilAt(s, k) == d.value)
  }

  lemma EarliestStep(s: State, n: nat, d: Option<int>)
    requires |s.threads| > 0 && EarliestAmong(s, n, d)
    ensures EarliestAmong(s, n + 1, Earlier(s.threads[Candidate(s, n)], d))
  {
    var d' := Earlier(s.threads[Candidate(s, n)], d);
    if SleeperAt(s, n) {
      assert d'.value <= UntilAt(s, n);
    }
    if d.Some? {
      var k: nat :| k < n && SleeperAt(s, k) && UntilAt(s, k) == d.value;
      assert k < n + 1;
    }
  }

  lemma NothingYet(s: State)
    requires |s.threads| > 0
    ensures Fruitless(s, []) && EarliestAmong(s, 0, None)
  {
  }

  lemma FruitlessStep(s: State, times: seq<int>, time: int)
    requires |times| < |s.threads| && Fruitless(s, times)
    ensures !Due(s, Candidate(s, |times|), time) ==> Fruitless(s, times + [time])
    ensures Fruitless(s, (times + [time])[..|times|])
  {
    assert (times + [time])[..|times|] == times;
  }

  lemma EarliestIsAwakening(s: State, d: Option<int>)
    requires s.current < |s.threads| && EarliestAmong(s, |s.threads|, d)
    ensures SomeoneSleeps(s) <==> d.Some?
    ensures d.Some? ==> IsAwakening(s, d.value)
  {
    forall t | 0 <= t < |s.threads| && s.threads[t].active && s.threads[t].block.Sleeping?
      ensures d.Some? && d.value <= s.threads[t].block.until
    {
      CandidateAt(s, Distance(s, t));
      assert SleeperAt(s, Distance(s, t));
    }
  }

  lemma FruitlessMeansAsleep(s: State, times: seq<int>)
    requires s.current < |s.threads| == |times| && Fruitless(s, times) && NotDeadlocked(s)
    ensures SomeoneSleeps(s)
  {
    if t: ThreadId :| Due(s, t, 0) {
      var k := Distance(s, t);
      CandidateAt(s, k);
      assert !Due(s, Candidate(s, k), times[k]);
    }
  }

  class Environment {
    var threads: seq<Thread>
    var current: ThreadId
    var cpu: Context
    var held: Option<ThreadId>
    var phase: Phase
    var mutexes: map<MutexId, Mutex>
    var mutexCount: nat
    var sems: map<SemId, int>
    var mem: map<nat, int>
    var now: int

    ghost function Abs(): State
      reads this
    {
      State(threads, current, cpu, held, phase, mutexes, mutexCount, sems, mem)
    }

    constructor (regs: Context)
      ensures Abs() == Initial(regs) && Inv(Abs())
    {
      threads := [Thread(true, NotBlocked, None, None, None)];
      current, cpu, held, phase := 0, regs, Some(0), Running;
      mutexes, mutexCount, sems, mem, now := map[], 0, map[], map[], 0;
      new;
      InitialInv(regs);
    }

    // ---------- calls of the running thread ----------

    method NewThread() returns (id: ThreadId)
      requires Inv(Abs()) && Enabled(Abs(), Create)
      modifies this`threads
      ensures Does(old(Abs()), Create, Abs()) && id == |old(threads)|
    {
      Done(Abs(), Create);
      threads := threads + [Thread(true, NotBlocked, None, Some(NEW_CONTEXT), Some(|threads|))];
      id := |threads| - 1;
    }

    method YieldThread(b: Block)
      requires current < |threads| && threads[current].block.NotBlocked?
      modifies this`threads, this`phase
      ensures Abs() == YieldOn(old(Abs()), b)
    {
      threads := threads[current := threads[current].(block := b)];
      phase := Yielded;
    }

    method Sleep(duration: nat)
      requires Inv(Abs()) && phase.Running? && CanYield(Abs())
      modifies this`threads, this`phase, this`now
      ensures now >= old(now) && Does(old(Abs()), Event.Sleep(now + duration), Abs())
    {
      SelfSuspension(Abs());
      hide Inv, Asserts, Pick;
      var start := Now();
      Done(Abs(), Event.Sleep(start + duration));
      YieldThread(Sleeping(start + duration));
    }

    method JoinWithThread(joinee: ThreadId, ptr: nat)
      requires Inv(Abs()) && Enabled(Abs(), Join(joinee, ptr))
      modifies this`threads, this`phase
      ensures Does(old(Abs()), Join(joinee, ptr), Abs())
    {
      Done(Abs(), Join(joinee, ptr));
      YieldThread(Joining(joinee, ptr));
    }

    method SuspendThread(t: ThreadId)
      requires Inv(Abs()) && Enabled(Abs(), Suspend(t))
      modifies this`threads
      ensures Does(old(Abs()), Suspend(t), Abs())
    {
      Done(Abs(), Suspend(t));
      match threads[t].block {
        case Suspended(count, previous) =>
          threads := threads[t := threads[t].(block := Suspended(count + 1, previous))];
        case previous =>
          threads := threads[t := threads[t].(block := Suspended(1, previous))];
      }
    }

    method ResumeThread(t: ThreadId)
      requires Inv(Abs()) && Enabled(Abs(), Unsuspend(t))
      modifies this`threads
      ensures Does(old(Abs()), Unsuspend(t), Abs())
    {
      Done(Abs(), Unsuspend(t));
      var count, previous := threads[t].block.count, threads[t].block.previous;
      if count > 1 {
        threads := threads[t := threads[t].(block := Suspended(count - 1, previous))];
      } else {
        threads := threads[t := threads[t].(block := previous)];
      }
    }

    method SemDecrement(x: SemId, wait: bool) returns (ok: bool)
      requires Inv(Abs()) && Enabled(Abs(), SemDown(x, wait))
      modifies this`threads, this`phase, this`sems
      ensures Does(old(Abs()), SemDown(x, wait), Abs())
      ensures ok == (wait || old(sems)[x] > 0)
    {
      Done(Abs(), SemDown(x, wait));
      if sems[x] > 0 {
        sems := sems[x := sems[x] - 1];
        return true;
      }
      if !wait {
        return false;
      }
      YieldThread(OnSemaphore(x));
      return true;
    }

    method SemIncrement(x: SemId)
      requires Inv(Abs()) && Enabled(Abs(), SemUp(x))
      modifies this`sems
      ensures Does(old(Abs()), SemUp(x), Abs())
    {
      Done(Abs(), SemUp(x));
      sems := sems[x := sems[x] + 1];
    }

    // ---------- mutexes ----------

    method NewMutex(kind: MutexKind) returns (m: MutexId)
      requires Inv(Abs()) && Enabled(Abs(), InitMutex(kind))
      modifies this`mutexes, this`mutexCount
      ensures Does(old(Abs()), InitMutex(kind), Abs()) && m == old(mutexCount) && m !in old(mutexes)
      ensures mutexes == old(mutexes)[m := Mutex(kind, 0, None)]
    {
      Done(Abs(), InitMutex(kind));
      NoWaitersForNew(Abs());
      m := mutexCount;
      mutexCount := mutexCount + 1;
      mutexes := mutexes[m := Mutex(kind, 0, None)];
    }

    method DestroyMutex(m: MutexId) returns (r: Outcome)
      requires Inv(Abs()) && Enabled(Abs(), Destroy(m))
      modifies this`mutexes
      ensures Does(old(Abs()), Destroy(m), Abs()) && r == DestroyOutcome(old(Abs()), m)
    {
      Done(Abs(), Destroy(m));
      if mutexes[m].locked.Some? {
        return Busy;
      } else if mutexes[m].waiting != 0 {
        return Busy;
      }
      mutexes := mutexes - {m};
      return Ok(0);
    }

    method LockMutex(m: MutexId) returns (r: Outcome)
      requires Inv(Abs()) && Enabled(Abs(), Lock(m))
      modifies this`threads, this`phase, this`mutexes
      ensures Does(old(Abs()), Lock(m), Abs()) && r == LockOutcome(old(Abs()), m)
    {
      Done(Abs(), Lock(m));
      hide Inv, Asserts, Pick;
      var mutex := mutexes[m];
      if mutex.locked.None? {
        mutexes := mutexes[m := mutex.(locked := Some((current, 1)))];
        return Ok(1);
      }
      var (owner, count) := mutex.locked.value;
      if owner == current {
        if mutex.kind.ErrorCheck? {
          return Deadlock;
        }
        mutexes := mutexes[m := mutex.(locked := Some((owner, count + 1)))];
        return Ok(count + 1);
      }
      mutexes := mutexes[m := mutex.(waiting := mutex.waiting + 1)];
      YieldThread(OnMutex(m));
      return Blocks;
    }

    method UnlockMutex(m: MutexId) returns (r: Outcome)
      requires Inv(Abs()) && Enabled(Abs(), Unlock(m))
      modifies this`mutexes
      ensures Does(old(Abs()), Unlock(m), Abs()) && r == UnlockOutcome(old(Abs()), m)
    {
      Done(Abs(), Unlock(m));
      assert MutexOk(Abs(), m);
      hide Inv, Asserts, Pick, Waiters;
      var mutex := mutexes[m];
      if mutex.locked.None? {
        return NotPermitted;
      }
      var (owner, count) := mutex.locked.value;
      if owner != current && !mutex.kind.Normal? {
        return NotPermitted;
      }
      if count == 1 {
        mutexes := mutexes[m := mutex.(locked := None)];
        return Ok(0);
      }
      mutexes := mutexes[m := mutex.(locked := Some((owner, count - 1)))];
      return Ok(count - 1);
    }

    method Relock(t: ThreadId, m: MutexId)
      requires m in mutexes && mutexes[m].locked.None?
      modifies this`mutexes
      ensures Abs() == Threads.Relock(old(Abs()), t, m)
    {
      mutexes := mutexes[m := mutexes[m].(locked := Some((t, 1)))];
      if mutexes[m].waiting > 0 {
        mutexes := mutexes[m := mutexes[m].(waiting := mutexes[m].waiting - 1)];
      }
    }

    // ---------- the executor ----------

    /** `Instant::now()` */
    method Now() returns (r: int)
      modifies this`now
      ensures r == now >= old(now)
    {
      var elapsed: int := *;
      if elapsed > 0 {
        now := now + elapsed;
      }
      r := now;
    }

    /** The host sleeps at least until then. */
    method HostSleep(until: int)
      modifies this`now
      ensures now >= until && now >= old(now)
    {
      var woken: int := *;
      if woken > now {
        now := woken;
      }
      if until > now {
        now := until;
      }
    }

    /** What the pass does with the thread it takes. */
    method Awaken(t: ThreadId)
      requires current < |threads| && t < |threads| && WakeAsserts(Abs(), t)
      modifies this`threads, this`mutexes, this`sems, this`mem
      ensures Abs() == Wake(old(Abs()), t)
    {
      var block := threads[t].block;
      threads := threads[t := threads[t].(block := NotBlocked)];
      match block {
        case OnMutex(m) => Relock(t, m);
        case OnSemaphore(x) => sems := sems[x := sems[x] - 1];
        case Joining(j, ptr) =>
          if ptr != 0 {
            mem := mem[ptr := threads[j].result.value];
          }
        case _ =>
      }
    }

    /** Whether a candidate can run; a sleeper is asked at the present time and otherwise counts for the awakening. */
    method Examine(t: ThreadId, awakening: Option<int>) returns (ready: bool, next: Option<int>, time: int)
      requires t < |threads| && Inv(Abs())
      modifies this`now
      ensures old(now) <= time <= now
      ensures ready <==> Due(Abs(), t, time)
      ensures !ready ==> next == Earlier(threads[t], awakening)
    {
      ready, next, time := false, awakening, now;
      if !threads[t].active {
        return;
      }
      match threads[t].block {
        case Sleeping(until) =>
          time := Now();
          ready := until <= time;
          if !ready && (awakening.None? || until <= awakening.value) {
            next := Some(until);
          }
        case OnMutex(m) => ready := !(m in mutexes && mutexes[m].locked.Some?);
        case OnSemaphore(x) => ready := x in sems && sems[x] > 0;
        case Joining(j, _) => ready := j < |threads| && !threads[j].active;
        case NotBlocked => ready := true;
        case Suspended(_, _) =>
      }
    }

    /** One pass over all threads, starting after the current one. */
    method Scan() returns (next: Option<ThreadId>, awakening: Option<int>, ghost times: seq<int>)
      requires Inv(Abs()) && !phase.Running?
      modifies this`threads, this`mutexes, this`sems, this`mem, this`now
      ensures now >= old(now) && forall k :: 0 <= k < |times| ==> old(now) <= times[k] <= now
      ensures |times| <= |old(threads)|
      ensures next.Some? ==>
        && 0 < |times| && Fruitless(old(Abs()), times[..|times| - 1])
        && next.value == Candidate(old(Abs()), |times| - 1)
        && Due(old(Abs()), next.value, times[|times| - 1]) && Abs() == Wake(old(Abs()), next.value)
      ensures next.None? ==>
        && Abs() == old(Abs()) && |times| == |threads| && Fruitless(Abs(), times)
        && EarliestAmong(Abs(), |threads|, awakening)
    {
      hide Inv, Due, Runnable, Fruitless, EarliestAmong, Earlier, Wake, WakeAsserts;
      ghost var s := Abs();
      assert s.current < |s.threads| by {
        InvCurrent(s);
      }
      next, awakening, times := None, None, [];
      NothingYet(s);
      for i := 0 to |threads|
        invariant Abs() == s && |times| == i && Fruitless(s, times) && EarliestAmong(s, i, awakening)
        invariant now >= old(now) && forall k :: 0 <= k < |times| ==> old(now) <= times[k] <= now
      {
        var t := (current + 1 + i) % |threads|;
        var ready, later, time := Examine(t, awakening);
        assert t == Candidate(s, i);
        FruitlessStep(s, times, time);
        EarliestStep(s, i, awakening);
        times := times + [time];
        if ready {
          RunnableIsDue(s, t, time);
          WakeAssertsHold(s, t, time);
          Awaken(t);
          next := Some(t);
          return;
        }
        awakening := later;
      }
    }

    /** Passes until a thread is found, sleeping in between; at most two passes are needed. */
    method ScheduleNextThread() returns (next: ThreadId, ghost clock: ThreadId -> int)
      requires Inv(Abs()) && !phase.Running? && NotDeadlocked(Abs())
      modifies this`threads, this`mutexes, this`sems, this`mem, this`now
      ensures Pick(old(Abs()), clock, 0) == Some(next) && Abs() == Wake(old(Abs()), next)
      ensures Due(old(Abs()), next, clock(next))
      ensures forall t: ThreadId :: Due(old(Abs()), t, clock(t)) ==>
                Distance(old(Abs()), next) <= Distance(old(Abs()), t)
      ensures forall t: ThreadId :: old(now) <= clock(t) <= now
    {
      hide Inv, Due, Runnable, Fruitless, EarliestAmong, Wake, IsAwakening, NotDeadlocked, Pick, SomeoneSleeps;
      ghost var s := Abs();
      InvCurrent(s);
      ghost var wake: int := 0;
      ghost var slept := false;
      while true
        invariant Abs() == s && now >= old(now)
        invariant slept ==> now >= wake && IsAwakening(s, wake)
        decreases !slept
      {
        ghost var start := now;
        var found, awakening;
        ghost var times;
        found, awakening, times := Scan();
        clock := ClockOf(s, times, start);
        if found.Some? {
          PickFirst(s, times, start, 0);
          ChoosesNearestDue(s, clock);
          return found.value, clock;
        }
        PickNone(s, times, start, 0);
        ChoosesNearestDue(s, clock);
        FruitlessMeansAsleep(s, times);
        EarliestIsAwakening(s, awakening);
        if slept {
          SecondPassSucceeds(s, wake, clock, clock);
          assert false;
        }
        HostSleep(awakening.value);
        slept, wake := true, awakening.value;
      }
    }

    method SwitchThread(t: ThreadId)
      requires current < |threads| && t < |threads| && t != current && WakeAsserts(Abs(), t)
      modifies this`threads, this`current, this`cpu, this`held
      ensures Abs() == Switch(old(Abs()), t)
    {
      var guest := threads[t].guest.value;
      threads := threads[t := threads[t].(guest := None)];
      cpu, guest := guest, cpu;
      threads := threads[current := threads[current].(guest := Some(guest))];
      var coroutine := threads[t].coroutine;
      threads := threads[t := threads[t].(coroutine := None)];
      threads := threads[current := threads[current].(coroutine := held)];
      held := coroutine;
      current := t;
    }

    /** The executor's turn once the current thread has yielded or finished. */
    method RunTurn() returns (ghost clock: ThreadId -> int)
      requires Inv(Abs()) && !phase.Running? && NotDeadlocked(Abs())
      modifies this
      ensures Does(old(Abs()), Schedule(clock), Abs())
      ensures phase.Running? && held == Some(current)
    {
      ghost var s := Abs();
      var next;
      next, clock := ScheduleNextThread();
      Done(s, Schedule(clock));
      ghost var s' := Step(s, Schedule(clock));
      assert s' == Resume(s, next);
      WakeRegs(s, next);
      if next != current {
        SwitchThread(next);
      }
      phase := Running;
    }
  }
}
