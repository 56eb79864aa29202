/** Mutex ownership, semaphore values and suspensions over whole runs. */
module ThreadLocks {
  import opened Options
  import opened Threads
  import opened ThreadInvariant
  import opened ThreadRuns

  // ---------- lock counts ----------

  /** How often `t` holds `m`. */
  function Holds(s: State, m: MutexId, t: ThreadId): nat {
    if IsLocked(s, m) && s.mutexes[m].locked.value.0 == t then s.mutexes[m].locked.value.1 else 0
  }

  /** How often `m` is held, by whomever. */
  function Held(s: State, m: MutexId): nat {
    if IsLocked(s, m) then s.mutexes[m].locked.value.1 else 0
  }

  /** The event completes a lock of `m` by `t`: at once, or when the scheduler wakes `t`. */
  predicate Acquires(s: State, e: Event, m: MutexId, t: ThreadId)
    requires Enabled(s, e)
  {
    || (e == Lock(m) && s.current == t && LockOutcome(s, m).Ok?)
    || (t < |s.threads| && Chooses(s, e, t) && s.threads[t].block == OnMutex(m))
  }

  /** The event is a successful unlock of `m` by `t`. */
  predicate Releases(s: State, e: Event, m: MutexId, t: ThreadId)
    requires Enabled(s, e)
  {
    e == Unlock(m) && s.current == t && UnlockOutcome(s, m).Ok?
  }

  ghost function Locks(s: State, es: seq<Event>, m: MutexId, t: ThreadId): nat
    requires Clean(s, es)
    decreases |es|
  {
    if es == [] then 0 else (if Acquires(s, es[0], m, t) then 1 else 0) + Locks(Step(s, es[0]), es[1..], m, t)
  }

  ghost function Unlocks(s: State, es: seq<Event>, m: MutexId, t: ThreadId): nat
    requires Clean(s, es)
    decreases |es|
  {
    if es == [] then 0 else (if Releases(s, es[0], m, t) then 1 else 0) + Unlocks(Step(s, es[0]), es[1..], m, t)
  }

  /** `m` is, or was, a mutex that only its owner may unlock. */
  predicate Owned(s: State, m: MutexId) {
    m < s.mutexCount && (m in s.mutexes ==> !s.mutexes[m].kind.Normal?)
  }

  /** What waking thread `u` does to a mutex. */
  lemma WakeMutex(s: State, u: ThreadId, m: MutexId)
    requires u < |s.threads| && s.current < |s.threads| && WakeAsserts(s, u)
    requires u != s.current ==> s.threads[u].guest.Some?
    ensures var s' := Resume(s, u);
            && s'.mutexCount == s.mutexCount && s'.mutexes.Keys == s.mutexes.Keys
            && (m in s.mutexes ==> s'.mutexes[m].kind == s.mutexes[m].kind)
            && (m in s.mutexes && s.threads[u].block == OnMutex(m) ==> s'.mutexes[m].locked == Some((u, 1)))
            && (m in s.mutexes && s.threads[u].block != OnMutex(m) ==> s'.mutexes[m].locked == s.mutexes[m].locked)
            && (s.threads[u].block == OnMutex(m) ==> m in s.mutexes && s.mutexes[m].locked.None?)
  {
    var s1 := Wake(s, u);
    assert Resume(s, u).mutexes == s1.mutexes && Resume(s, u).mutexCount == s1.mutexCount by {
      WakeRegs(s, u);
      hide Wake, WakeAsserts;
    }
    hide Resume, Switch;
  }

  lemma ScheduleMutex(s: State, e: Event, m: MutexId, t: ThreadId)
    requires Inv(s) && Enabled(s, e) && Asserts(s, e) && e.Schedule?
    ensures Holds(Step(s, e), m, t) == Holds(s, m, t) + (if Acquires(s, e, m, t) then 1 else 0)
    ensures Owned(s, m) ==> Owned(Step(s, e), m)
  {
    hide Inv, Pick, Runnable;
    var r := Pick(s, e.clock, 0);
    if r.Some? {
      assert Step(s, e) == Resume(s, r.value);
      WakeMutex(s, r.value, m);
      hide Resume, Step, WakeAsserts;
    }
  }

  lemma OtherCalls(s: State, e: Event)
    requires Enabled(s, e) && Asserts(s, e) && !e.Schedule?
    requires !(e.Destroy? || e.Lock? || e.Unlock? || e.InitMutex?)
    ensures Step(s, e).mutexes == s.mutexes && Step(s, e).mutexCount == s.mutexCount
  {
    hide Asserts, Pick;
  }

  lemma CallMutex(s: State, e: Event, m: MutexId, t: ThreadId)
    requires Inv(s) && Enabled(s, e) && Asserts(s, e) && !e.Schedule? && Owned(s, m)
    ensures Holds(Step(s, e), m, t) + (if Releases(s, e, m, t) then 1 else 0)
            == Holds(s, m, t) + (if Acquires(s, e, m, t) then 1 else 0)
    ensures Owned(Step(s, e), m)
  {
    if e.Lock? || e.Unlock? {
      LockingMutex(s, e, m, t);
    } else {
      assert m in s.mutexes ==> MutexOk(s, m);
      hide Inv, Pick, Runnable, Waiters, Asserts, LockMutex, UnlockMutex;
      if !(e.Destroy? || e.InitMutex?) {
        OtherCalls(s, e);
        hide Step;
      }
    }
  }

  lemma LockingMutex(s: State, e: Event, m: MutexId, t: ThreadId)
    requires Inv(s) && Enabled(s, e) && Asserts(s, e) && (e.Lock? || e.Unlock?) && Owned(s, m)
    ensures Holds(Step(s, e), m, t) + (if Releases(s, e, m, t) then 1 else 0)
            == Holds(s, m, t) + (if Acquires(s, e, m, t) then 1 else 0)
    ensures Owned(Step(s, e), m)
  {
    assert m in s.mutexes ==> MutexOk(s, m);
    hide Inv, Pick, Runnable, Waiters, Asserts;
  }

  /** Over any interleaving, how often a thread holds an error-checking or recursive mutex is what it held at first plus
      its completed locks minus its unlocks; in particular for a mutex created before the run and locked by nobody. */
  lemma {:induction false} CountIsLocksMinusUnlocks(s: State, es: seq<Event>, m: MutexId, t: ThreadId)
    requires Inv(s) && Clean(s, es) && Owned(s, m)
    ensures Holds(Last(s, es), m, t) + Unlocks(s, es, m, t) == Holds(s, m, t) + Locks(s, es, m, t)
    decreases |es|
  {
    hide Inv, Holds, Owned, Acquires, Releases;
    if es != [] {
      if es[0].Schedule? {
        ScheduleMutex(s, es[0], m, t);
        NotReleased(s, es[0], m, t);
      } else {
        CallMutex(s, es[0], m, t);
      }
      StepKeepsInv(s, es[0]);
      CountIsLocksMinusUnlocks(Step(s, es[0]), es[1..], m, t);
    }
  }

  lemma NotReleased(s: State, e: Event, m: MutexId, t: ThreadId)
    requires Enabled(s, e) && e.Schedule?
    ensures !Releases(s, e, m, t)
  {
  }

  // ---------- plain mutexes, which anybody may unlock ----------

  /** The event completes a lock of `m` by somebody. */
  predicate SomeoneAcquires(s: State, e: Event, m: MutexId)
    requires Enabled(s, e)
  {
    || Acquires(s, e, m, s.current)
    || (e.Schedule? && Pick(s, e.clock, 0).Some? && Acquires(s, e, m, Pick(s, e.clock, 0).value))
  }

  ghost function AllLocks(s: State, es: seq<Event>, m: MutexId): nat
    requires Clean(s, es)
    decreases |es|
  {
    if es == [] then 0 else (if SomeoneAcquires(s, es[0], m) then 1 else 0) + AllLocks(Step(s, es[0]), es[1..], m)
  }

  ghost function AllUnlocks(s: State, es: seq<Event>, m: MutexId): nat
    requires Clean(s, es)
    decreases |es|
  {
    if es == [] then 0 else (if Releases(s, es[0], m, s.current) then 1 else 0) + AllUnlocks(Step(s, es[0]), es[1..], m)
  }

  lemma ScheduleTotal(s: State, e: Event, m: MutexId)
    requires Inv(s) && Enabled(s, e) && Asserts(s, e) && e.Schedule?
    ensures Held(Step(s, e), m) == Held(s, m) + (if SomeoneAcquires(s, e, m) then 1 else 0)
    ensures Step(s, e).mutexCount == s.mutexCount
  {
    hide Inv, Pick, Runnable;
    var r := Pick(s, e.clock, 0);
    if r.Some? {
      assert Step(s, e) == Resume(s, r.value);
      WakeMutex(s, r.value, m);
      hide Resume, Step, WakeAsserts;
    }
  }

  lemma CallTotal(s: State, e: Event, m: MutexId)
    requires Inv(s) && Enabled(s, e) && Asserts(s, e) && !e.Schedule? && m < s.mutexCount
    ensures Held(Step(s, e), m) + (if Releases(s, e, m, s.current) then 1 else 0)
            == Held(s, m) + (if SomeoneAcquires(s, e, m) then 1 else 0)
    ensures m < Step(s, e).mutexCount
  {
    if e.Lock? || e.Unlock? {
      LockingTotal(s, e, m);
    } else {
      assert m in s.mutexes ==> MutexOk(s, m);
      hide Inv, Pick, Runnable, Waiters, Asserts, LockMutex, UnlockMutex;
      if !(e.Destroy? || e.InitMutex?) {
        OtherCalls(s, e);
        hide Step;
      }
    }
  }

  lemma LockingTotal(s: State, e: Event, m: MutexId)
    requires Inv(s) && Enabled(s, e) && Asserts(s, e) && (e.Lock? || e.Unlock?) && m < s.mutexCount
    ensures Held(Step(s, e), m) + (if Releases(s, e, m, s.current) then 1 else 0)
            == Held(s, m) + (if SomeoneAcquires(s, e, m) then 1 else 0)
    ensures m < Step(s, e).mutexCount
  {
    assert m in s.mutexes ==> MutexOk(s, m);
    hide Inv, Pick, Runnable, Waiters, Asserts;
  }

  /** For a mutex of any kind, its lock count is what it was at first plus completed locks minus successful unlocks. */
  lemma {:induction false} TotalIsLocksMinusUnlocks(s: State, es: seq<Event>, m: MutexId)
    requires Inv(s) && Clean(s, es) && m < s.mutexCount
    ensures Held(Last(s, es), m) + AllUnlocks(s, es, m) == Held(s, m) + AllLocks(s, es, m)
    decreases |es|
  {
    hide Inv, Held, SomeoneAcquires, Releases;
    if es != [] {
      if es[0].Schedule? {
        ScheduleTotal(s, es[0], m);
        NotReleased(s, es[0], m, s.current);
      } else {
        CallTotal(s, es[0], m);
      }
      StepKeepsInv(s, es[0]);
      TotalIsLocksMinusUnlocks(Step(s, es[0]), es[1..], m);
    }
  }

  // ---------- a lock call that returns holds the mutex ----------

  /** A lock call that returns at once with count `n` leaves its caller holding the mutex `n` times. */
  lemma LockAtOnce(s: State, m: MutexId)
    requires Inv(s) && Enabled(s, Lock(m)) && LockOutcome(s, m).Ok?
    ensures Asserts(s, Lock(m)) && Step(s, Lock(m)).phase.Running?
    ensures Holds(Step(s, Lock(m)), m, s.current) == LockOutcome(s, m).count
  {
    InvImpliesAsserts(s, Lock(m));
  }

  lemma WaitStep(s: State, e: Event, t: ThreadId, b: Block)
    requires Inv(s) && Enabled(s, e) && Asserts(s, e) && !Chooses(s, e, t)
    requires t < |s.threads| && Underlying(s.threads[t].block) == b && b != NotBlocked
    requires t == s.current ==> !s.phase.Running?
    ensures var s' := Step(s, e);
            t < |s'.threads| && Underlying(s'.threads[t].block) == b && (t == s'.current ==> !s'.phase.Running?)
  {
    if e.Schedule? {
      hide Inv, Pick, Runnable;
      var r := Pick(s, e.clock, 0);
      if r.Some? {
        assert Step(s, e) == Resume(s, r.value);
        ResumeFacts(s, r.value, t);
        hide Resume, Step, WakeAsserts;
      }
    } else {
      assert ThreadOk(s, t) && s.phase.Running?;
      hide Inv, Step, Asserts, Enabled;
      CallBlock(s, e, t);
    }
  }

  // ---------- what a call does to blocks ----------

  /** What the current thread waits for after a call that blocks. */
  function Reason(e: Event): Block {
    match e
    case Lock(m) => OnMutex(m)
    case SemDown(x, _) => OnSemaphore(x)
    case Sleep(until) => Sleeping(until)
    case Join(j, ptr) => Joining(j, ptr)
    case _ => NotBlocked
  }

  function BlockAfter(s: State, e: Event, t: ThreadId): Block
    requires Enabled(s, e) && t < |s.threads|
  {
    if e == Suspend(t) then SuspendBlock(s.threads[t].block)
    else if e == Unsuspend(t) then ResumeBlock(s.threads[t].block)
    else if t == s.current && Blocking(s, e) then Reason(e)
    else s.threads[t].block
  }

  lemma CallBlock(s: State, e: Event, t: ThreadId)
    requires Enabled(s, e) && Asserts(s, e) && !e.Schedule? && t < |s.threads|
    ensures t < |Step(s, e).threads| && Step(s, e).current == s.current
    ensures Step(s, e).threads[t].block == BlockAfter(s, e, t)
  {
    hide Asserts, Pick, UnlockOutcome;
    if Blocking(s, e) {
      BlockingCall(s, e);
      hide Step, Enabled;
    } else {
      hide LockOutcome, YieldOn;
    }
  }

  lemma BlockingCall(s: State, e: Event)
    requires Enabled(s, e) && Asserts(s, e) && Blocking(s, e)
    ensures Step(s, e).threads == s.threads[s.current := s.threads[s.current].(block := Reason(e))]
    ensures Step(s, e).current == s.current
  {
    hide Asserts, Pick;
  }

  /** A blocked thread keeps its reason, suspended or not, until the scheduler chooses it. */
  lemma {:induction false} WaitsUntilChosen(s: State, es: seq<Event>, t: ThreadId, b: Block)
    requires Inv(s) && Clean(s, es) && !Chosen(s, es, t)
    requires t < |s.threads| && Underlying(s.threads[t].block) == b && b != NotBlocked
    requires t == s.current ==> !s.phase.Running?
    ensures t < |Last(s, es).threads| && Underlying(Last(s, es).threads[t].block) == b && Inv(Last(s, es))
    decreases |es|
  {
    hide Inv;
    if es != [] {
      WaitStep(s, es[0], t, b);
      StepKeepsInv(s, es[0]);
      WaitsUntilChosen(Step(s, es[0]), es[1..], t, b);
    }
  }

  /** When a lock call blocks, then the first time the scheduler chooses its caller again, which is when the call
      returns 1, the caller runs and holds the mutex exactly once. */
  lemma LockAfterBlocking(s: State, m: MutexId, es: seq<Event>, e: Event)
    requires Inv(s) && Enabled(s, Lock(m)) && LockOutcome(s, m).Blocks? && Asserts(s, Lock(m))
    requires Clean(Step(s, Lock(m)), es) && !Chosen(Step(s, Lock(m)), es, s.current)
    requires var s1 := Last(Step(s, Lock(m)), es); Enabled(s1, e) && Asserts(s1, e) && Chooses(s1, e, s.current)
    ensures var s2 := Step(Last(Step(s, Lock(m)), es), e);
            s2.current == s.current && s2.phase.Running? && Holds(s2, m, s.current) == 1
  {
    var t := s.current;
    var s0 := Step(s, Lock(m));
    StepKeepsInv(s, Lock(m));
    assert Underlying(s0.threads[t].block) == OnMutex(m) && !s0.phase.Running?;
    WaitsUntilChosen(s0, es, t, OnMutex(m));
    ChosenHolds(Last(s0, es), e, m, t);
  }

  lemma ChosenHolds(s: State, e: Event, m: MutexId, t: ThreadId)
    requires Inv(s) && Enabled(s, e) && Asserts(s, e) && Chooses(s, e, t)
    requires t < |s.threads| && Underlying(s.threads[t].block) == OnMutex(m)
    ensures Step(s, e).current == t && Step(s, e).phase.Running? && Holds(Step(s, e), m, t) == 1
  {
    hide Inv, Pick;
    assert !s.threads[t].block.Suspended?;
    assert Step(s, e) == Resume(s, t);
    ResumeFacts(s, t, t);
    WakeMutex(s, t, m);
    hide Resume, Step, WakeAsserts;
  }

  /** A join ends when the other thread has finished, with its result stored where the caller asked and nowhere else. */
  lemma JoinDelivers(s: State, e: Event, t: ThreadId, j: ThreadId, ptr: nat)
    requires Inv(s) && Enabled(s, e) && Asserts(s, e) && Chooses(s, e, t)
    requires t < |s.threads| && s.threads[t].block == Joining(j, ptr)
    ensures j < |s.threads| && !s.threads[j].active && s.threads[j].result.Some?
    ensures Step(s, e).mem == if ptr == 0 then s.mem else s.mem[ptr := s.threads[j].result.value]
    ensures Step(s, e).threads[t].block.NotBlocked? && Step(s, e).current == t
  {
    hide Inv, Pick;
    assert Step(s, e) == Resume(s, t);
    ResumeFacts(s, t, t);
  }

  // ---------- semaphores ----------

  predicate Ups(s: State, e: Event, x: SemId) {
    e == SemUp(x)
  }

  /** The event completes a decrement of `x`: at once, or when the scheduler wakes the waiting thread. */
  predicate Downs(s: State, e: Event, x: SemId)
    requires Enabled(s, e)
  {
    || (e.SemDown? && e.x == x && s.sems[x] > 0)
    || (e.Schedule? && Pick(s, e.clock, 0).Some? && s.threads[Pick(s, e.clock, 0).value].block == OnSemaphore(x))
  }

  ghost function Increments(s: State, es: seq<Event>, x: SemId): nat
    requires Clean(s, es)
    decreases |es|
  {
    if es == [] then 0 else (if Ups(s, es[0], x) then 1 else 0) + Increments(Step(s, es[0]), es[1..], x)
  }

  ghost function Decrements(s: State, es: seq<Event>, x: SemId): nat
    requires Clean(s, es)
    decreases |es|
  {
    if es == [] then 0 else (if Downs(s, es[0], x) then 1 else 0) + Decrements(Step(s, es[0]), es[1..], x)
  }

  lemma SemStep(s: State, e: Event, x: SemId)
    requires Inv(s) && Enabled(s, e) && Asserts(s, e) && x in s.sems
    ensures x in Step(s, e).sems
    ensures Step(s, e).sems[x] + (if Downs(s, e, x) then 1 else 0) == s.sems[x] + (if Ups(s, e, x) then 1 else 0)
  {
    hide Inv, Pick, Runnable;
    if e.Schedule? {
      var r := Pick(s, e.clock, 0);
      if r.Some? {
        assert Step(s, e) == Resume(s, r.value);
        WakeSem(s, r.value, x);
        hide Step, Resume, WakeAsserts;
      }
    } else {
      hide Asserts, LockOutcome, UnlockOutcome;
    }
  }

  lemma WakeSem(s: State, u: ThreadId, x: SemId)
    requires u < |s.threads| && s.current < |s.threads| && x in s.sems
    requires u != s.current ==> s.threads[u].guest.Some?
    ensures x in Resume(s, u).sems
    ensures Resume(s, u).sems[x] == s.sems[x] - if s.threads[u].block == OnSemaphore(x) then 1 else 0
  {
    var s1 := Wake(s, u);
    assert Resume(s, u).sems == s1.sems by {
      WakeRegs(s, u);
      hide Wake;
    }
    hide Resume, Switch;
  }

  /** At every point of every run a semaphore's value is not negative and is its first value plus increments minus
      completed decrements. */
  lemma {:induction false} SemaphoreConservation(s: State, es: seq<Event>, x: SemId)
    requires Inv(s) && Clean(s, es) && x in s.sems
    ensures x in Last(s, es).sems && Last(s, es).sems[x] >= 0
    ensures Last(s, es).sems[x] + Decrements(s, es, x) == s.sems[x] + Increments(s, es, x)
    decreases |es|
  {
    if es != [] {
      SemStep(s, es[0], x);
      StepKeepsInv(s, es[0]);
      hide Inv, Ups, Downs;
      SemaphoreConservation(Step(s, es[0]), es[1..], x);
    }
  }

  // ---------- suspensions ----------

  /** How often a thread is suspended. */
  function Depth(b: Block): nat {
    if b.Suspended? then b.count else 0
  }

  function Suspends(es: seq<Event>, t: ThreadId): nat {
    if es == [] then 0 else (if es[0] == Suspend(t) then 1 else 0) + Suspends(es[1..], t)
  }

  function Unsuspends(es: seq<Event>, t: ThreadId): nat {
    if es == [] then 0 else (if es[0] == Unsuspend(t) then 1 else 0) + Unsuspends(es[1..], t)
  }

  lemma SuspensionStep(s: State, e: Event, t: ThreadId)
    requires Inv(s) && Enabled(s, e) && Asserts(s, e) && t < |s.threads|
    ensures t < |Step(s, e).threads|
    ensures Depth(Step(s, e).threads[t].block) + (if e == Unsuspend(t) then 1 else 0)
            == Depth(s.threads[t].block) + (if e == Suspend(t) then 1 else 0)
  {
    if e.Schedule? {
      hide Inv, Pick;
      var r := Pick(s, e.clock, 0);
      if r.Some? {
        assert !s.threads[r.value].block.Suspended?;
        assert Step(s, e) == Resume(s, r.value);
        ResumeFacts(s, r.value, t);
        hide Resume, Step, WakeAsserts, Runnable;
      }
    } else {
      assert ThreadOk(s, t);
      hide Inv, Step, Asserts, Pick;
      CallBlock(s, e, t);
    }
  }

  /** Over every run a thread's suspension count is what it was at first plus suspensions minus resumptions: it runs
      again only when all of them have been undone. */
  lemma {:induction false} SuspensionsBalance(s: State, es: seq<Event>, t: ThreadId)
    requires Inv(s) && Clean(s, es) && t < |s.threads|
    ensures t < |Last(s, es).threads|
    ensures Depth(Last(s, es).threads[t].block) + Unsuspends(es, t) == Depth(s.threads[t].block) + Suspends(es, t)
    decreases |es|
  {
    hide Inv;
    if es != [] {
      SuspensionStep(s, es[0], t);
      StepKeepsInv(s, es[0]);
      SuspensionsBalance(Step(s, es[0]), es[1..], t);
    }
  }

  /** Suspending a blocked thread and resuming it as often, whatever happens in between, brings back what it waited for
      unless the scheduler has woken it. */
  lemma SuspendResumeRestores(s: State, es: seq<Event>, t: ThreadId)
    requires Inv(s) && Clean(s, es) && t < |s.threads| && !Chosen(s, es, t)
    requires !s.threads[t].block.NotBlocked? && !s.threads[t].block.Suspended?
    requires t == s.current ==> !s.phase.Running?
    requires Suspends(es, t) == Unsuspends(es, t)
    ensures t < |Last(s, es).threads| && Last(s, es).threads[t].block == s.threads[t].block
  {
    SuspensionsBalance(s, es, t);
    WaitsUntilChosen(s, es, t, s.threads[t].block);
    assert ThreadOk(Last(s, es), t);
  }
}
