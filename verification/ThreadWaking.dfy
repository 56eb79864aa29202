/** When a waiting thread wakes up: what its reason says about the state, and how long it can be passed over. */
module ThreadWaking {
  import opened Options
  import opened Threads
  import opened ThreadInvariant
  import opened ThreadRuns
  import opened ThreadLocks

  /** What thread `t` waits for has come about when it is looked at at time `now`. */
  ghost predicate Due(s: State, t: ThreadId, now: int) {
    && t < |s.threads| && s.threads[t].active
    && (|| s.threads[t].block == NotBlocked
        || (exists until :: s.threads[t].block == Sleeping(until) && now >= until)
        || (exists m :: s.threads[t].block == OnMutex(m) && Unlocked(s, m))
        || (exists x :: s.threads[t].block == OnSemaphore(x) && Positive(s, x))
        || (exists j, ptr :: s.threads[t].block == Joining(j, ptr) && Finished(s, j)))
  }

  ghost predicate Unlocked(s: State, m: MutexId) {
    m in s.mutexes ==> s.mutexes[m].locked == None
  }

  ghost predicate Positive(s: State, x: SemId) {
    x in s.sems && s.sems[x] >= 1
  }

  ghost predicate Finished(s: State, j: ThreadId) {
    j < |s.threads| && !s.threads[j].active
  }

  lemma RunnableIsDue(s: State, t: ThreadId, now: int)
    requires t < |s.threads|
    ensures Runnable(s, t, now) <==> Due(s, t, now)
  {
    match s.threads[t].block {
      case Sleeping(until) => assert now >= until <==> until <= now;
      case OnMutex(m) => assert Unlocked(s, m) <==> !IsLocked(s, m);
      case OnSemaphore(x) => assert Positive(s, x) <==> (x in s.sems && s.sems[x] > 0);
      case Joining(j, ptr) => assert Finished(s, j) <==> (j < |s.threads| && !s.threads[j].active);
      case _ =>
    }
  }

  /** The scheduler chooses a thread exactly when some thread is due; the chosen one is due and no due thread is nearer
      in cyclic order. */
  lemma ChoosesNearestDue(s: State, clock: ThreadId -> int)
    requires s.current < |s.threads|
    ensures var r := Pick(s, clock, 0);
            && (r.Some? <==> exists t: ThreadId :: Due(s, t, clock(t)))
            && (r.Some? ==> Due(s, r.value, clock(r.value)))
            && (r.Some? ==> forall t: ThreadId :: Due(s, t, clock(t)) ==> Distance(s, r.value) <= Distance(s, t))
  {
    var r := Pick(s, clock, 0);
    if r.Some? {
      RunnableIsDue(s, r.value, clock(r.value));
    }
    forall t: ThreadId | Due(s, t, clock(t))
      ensures r.Some? && Distance(s, r.value) <= Distance(s, t)
    {
      RunnableIsDue(s, t, clock(t));
      PickIsNearest(s, clock, 0, t);
    }
  }

  /** The earliest end of sleep among the active sleepers: `next_awakening`. */
  ghost predicate IsAwakening(s: State, d: int) {
    && (forall t :: 0 <= t < |s.threads| && s.threads[t].active && s.threads[t].block.Sleeping?
                    ==> d <= s.threads[t].block.until)
    && (exists t :: 0 <= t < |s.threads| && s.threads[t].active && s.threads[t].block == Sleeping(d))
  }

  /** Before the earliest end of sleep only threads that do not sleep can be due. */
  lemma DueBefore(s: State, d: int, t: ThreadId, now: int, other: int)
    requires IsAwakening(s, d) && Due(s, t, now) && now < d
    ensures Due(s, t, other)
  {
    assert !s.threads[t].block.Sleeping?;
  }

  /** After a fruitless pass, once the earliest sleeper's time has come the next pass finds a thread; before that no
      pass does. So the scheduler's loop ends, and sleeps no longer than it must. */
  lemma SecondPassSucceeds(s: State, d: int, early: ThreadId -> int, clock: ThreadId -> int)
    requires s.current < |s.threads| && IsAwakening(s, d)
    requires forall t: ThreadId :: !Due(s, t, early(t))
    ensures (forall t: ThreadId :: clock(t) >= d) ==> Pick(s, clock, 0).Some?
    ensures (forall t: ThreadId :: clock(t) < d) ==> Pick(s, clock, 0).None?
  {
    ChoosesNearestDue(s, clock);
    var u :| 0 <= u < |s.threads| && s.threads[u].active && s.threads[u].block == Sleeping(d);
    assert clock(u) >= d ==> Due(s, u, clock(u));
    var r := Pick(s, clock, 0);
    if r.Some? && clock(r.value) < d {
      DueBefore(s, d, r.value, clock(r.value), early(r.value));
    }
  }

  // ---------- calls that return after waiting ----------

  /** At its return from a blocking call the thread runs again and what it waited for has come about. */
  lemma ReturnsWhenDue(s: State, e: Event, t: ThreadId, b: Block)
    requires Inv(s) && Enabled(s, e) && Asserts(s, e) && Chooses(s, e, t)
    requires t < |s.threads| && Underlying(s.threads[t].block) == b
    ensures Due(s, t, e.clock(t)) && s.threads[t].block == b
    ensures Step(s, e).current == t && Step(s, e).phase.Running?
  {
    ChoosesNearestDue(s, e.clock);
    assert !s.threads[t].block.Suspended?;
    hide Inv, Pick, Due;
    assert Step(s, e) == Resume(s, t);
    ResumeFacts(s, t, t);
  }

  /** A sleep ends no earlier than it should, however often threads are switched, suspended and resumed meanwhile. */
  lemma SleepsLongEnough(s: State, until: int, es: seq<Event>, e: Event)
    requires Inv(s) && Enabled(s, Sleep(until)) && Asserts(s, Sleep(until))
    requires Clean(Step(s, Sleep(until)), es) && !Chosen(Step(s, Sleep(until)), es, s.current)
    requires var s1 := Last(Step(s, Sleep(until)), es); Enabled(s1, e) && Asserts(s1, e) && Chooses(s1, e, s.current)
    ensures e.clock(s.current) >= until
  {
    var t, s0 := s.current, Step(s, Sleep(until));
    StepKeepsInv(s, Sleep(until));
    assert s0.threads[t].block == Sleeping(until) && !s0.phase.Running?;
    WaitsUntilChosen(s0, es, t, Sleeping(until));
    ReturnsWhenDue(Last(s0, es), e, t, Sleeping(until));
  }

  /** A waiting decrement of a semaphore at 0 gives up control and returns only when it has found the value at 1 or more
      and has taken one away. */
  lemma SemAfterBlocking(s: State, x: SemId, es: seq<Event>, e: Event)
    requires Inv(s) && Enabled(s, SemDown(x, true)) && Asserts(s, SemDown(x, true)) && s.sems[x] == 0
    requires var s0 := Step(s, SemDown(x, true)); Clean(s0, es) && !Chosen(s0, es, s.current)
    requires var s1 := Last(Step(s, SemDown(x, true)), es);
             Enabled(s1, e) && Asserts(s1, e) && Chooses(s1, e, s.current)
    ensures !Step(s, SemDown(x, true)).phase.Running?
    ensures var s1 := Last(Step(s, SemDown(x, true)), es);
            && x in s1.sems && s1.sems[x] >= 1
            && Step(s1, e).sems == s1.sems[x := s1.sems[x] - 1] && Step(s1, e).current == s.current
  {
    var t, s0 := s.current, Step(s, SemDown(x, true));
    StepKeepsInv(s, SemDown(x, true));
    assert s0.threads[t].block == OnSemaphore(x) && !s0.phase.Running?;
    hide Step, Inv, Enabled, Asserts, Chooses;
    WaitsUntilChosen(s0, es, t, OnSemaphore(x));
    var s1 := Last(s0, es);
    ReturnsWhenDue(s1, e, t, OnSemaphore(x));
    assert s1.threads[t].block == OnSemaphore(x) && x in s1.sems;
    WokenSem(s1, e, t, x);
  }

  lemma WokenSem(s: State, e: Event, t: ThreadId, x: SemId)
    requires Enabled(s, e) && Asserts(s, e) && Chooses(s, e, t)
    requires t < |s.threads| && s.threads[t].block == OnSemaphore(x) && x in s.sems
    ensures Step(s, e).sems == s.sems[x := s.sems[x] - 1]
  {
    hide Pick, Runnable;
    assert Step(s, e) == Resume(s, t);
  }

  /** From its creation on, a semaphore's value is the value it was created with plus increments minus completed
      decrements. */
  lemma SemaphoreFromStart(s: State, x: SemId, v: nat, es: seq<Event>)
    requires Inv(s) && Enabled(s, InitSem(x, v)) && Asserts(s, InitSem(x, v)) && x !in s.sems
    requires Clean(Step(s, InitSem(x, v)), es)
    ensures var s0 := Step(s, InitSem(x, v));
            && x in Last(s0, es).sems
            && Last(s0, es).sems[x] + Decrements(s0, es, x) == v + Increments(s0, es, x)
  {
    StepKeepsInv(s, InitSem(x, v));
    SemaphoreConservation(Step(s, InitSem(x, v)), es, x);
  }

  // ---------- joins ----------

  lemma ResultStep(s: State, e: Event, j: ThreadId)
    requires Inv(s) && Enabled(s, e) && Asserts(s, e) && j < |s.threads| && !s.threads[j].active
    ensures j < |Step(s, e).threads| && !Step(s, e).threads[j].active
    ensures Step(s, e).threads[j].result == s.threads[j].result
  {
    assert ThreadOk(s, j);
    if e.Schedule? {
      hide Inv, Pick, Runnable;
      var r := Pick(s, e.clock, 0);
      if r.Some? {
        assert Step(s, e) == Resume(s, r.value);
        ResumeResult(s, r.value, j);
        hide Resume, Step, WakeAsserts;
      }
    } else {
      hide Inv, Pick, Asserts, LockOutcome, UnlockOutcome;
    }
  }

  lemma ResumeResult(s: State, u: ThreadId, j: ThreadId)
    requires s.current < |s.threads| && u < |s.threads| && (u != s.current ==> s.threads[u].guest.Some?)
    requires j < |s.threads|
    ensures |Resume(s, u).threads| == |s.threads|
    ensures Resume(s, u).threads[j].result == s.threads[j].result
    ensures Resume(s, u).threads[j].active == s.threads[j].active
  {
    WakeRegs(s, u);
  }

  /** A finished thread stays finished with its result. */
  lemma {:induction false} ResultStays(s: State, es: seq<Event>, j: ThreadId)
    requires Inv(s) && Clean(s, es) && j < |s.threads| && !s.threads[j].active
    ensures j < |Last(s, es).threads| && !Last(s, es).threads[j].active
    ensures Last(s, es).threads[j].result == s.threads[j].result && Inv(Last(s, es))
    decreases |es|
  {
    hide Inv;
    if es != [] {
      ResultStep(s, es[0], j);
      StepKeepsInv(s, es[0]);
      ResultStays(Step(s, es[0]), es[1..], j);
    }
  }

  /** Whenever a join with `j` returns after `j` has exited with `r`, what is stored for the caller is `r`. */
  lemma JoinGetsExitValue(s: State, r: int, es: seq<Event>, e: Event, t: ThreadId, ptr: nat)
    requires Inv(s) && Enabled(s, Exit(r)) && Asserts(s, Exit(r)) && Clean(Step(s, Exit(r)), es) && ptr != 0
    requires var s1 := Last(Step(s, Exit(r)), es);
             && Enabled(s1, e) && Asserts(s1, e) && Chooses(s1, e, t)
             && t < |s1.threads| && s1.threads[t].block == Joining(s.current, ptr)
    ensures var s1 := Last(Step(s, Exit(r)), es);
            Step(s1, e).mem == s1.mem[ptr := r] && Step(s1, e).current == t
  {
    StepKeepsInv(s, Exit(r));
    ResultStays(Step(s, Exit(r)), es, s.current);
    JoinDelivers(Last(Step(s, Exit(r)), es), e, t, s.current, ptr);
  }

  /** A join returns only when the other thread has finished. */
  lemma JoinAfterBlocking(s: State, j: ThreadId, ptr: nat, es: seq<Event>, e: Event)
    requires Inv(s) && Enabled(s, Join(j, ptr)) && Asserts(s, Join(j, ptr))
    requires var s0 := Step(s, Join(j, ptr)); Clean(s0, es) && !Chosen(s0, es, s.current)
    requires var s1 := Last(Step(s, Join(j, ptr)), es); Enabled(s1, e) && Asserts(s1, e) && Chooses(s1, e, s.current)
    ensures !Step(s, Join(j, ptr)).phase.Running?
    ensures var s1 := Last(Step(s, Join(j, ptr)), es); Finished(s1, j) && s1.threads[s.current].block == Joining(j, ptr)
  {
    var t, s0 := s.current, Step(s, Join(j, ptr));
    StepKeepsInv(s, Join(j, ptr));
    assert s0.threads[t].block == Joining(j, ptr) && !s0.phase.Running?;
    WaitsUntilChosen(s0, es, t, Joining(j, ptr));
    ReturnsWhenDue(Last(s0, es), e, t, Joining(j, ptr));
  }

  // ---------- no starvation, waiting threads included ----------

  /** At every schedule call of the run up to the one that chooses it, `t` is due. */
  ghost predicate AlwaysDue(s: State, es: seq<Event>, t: ThreadId)
    requires Clean(s, es)
    decreases |es|
  {
    es != [] ==>
      && (es[0].Schedule? ==> Due(s, t, es[0].clock(t)))
      && (Chooses(s, es[0], t) || AlwaysDue(Step(s, es[0]), es[1..], t))
  }

  lemma DueStep(s: State, e: Event, t: ThreadId)
    requires Inv(s) && Enabled(s, e) && Asserts(s, e) && t < |s.threads| && !Chooses(s, e, t)
    requires e.Schedule? ==> Due(s, t, e.clock(t))
    ensures t < |Step(s, e).threads|
    ensures (if e.Schedule? then 1 else 0) + Distance(Step(s, e), t) <= Distance(s, t) + (if e.Create? then 1 else 0)
  {
    StepKeepsThreads(s, e);
    if e.Schedule? {
      ChoosesNearestDue(s, e.clock);
      hide Inv, Pick, Runnable, Due;
      var u := Pick(s, e.clock, 0).value;
      assert u != t && u < |s.threads| && Distance(s, u) <= Distance(s, t);
      assert Step(s, e) == Resume(s, u);
      ResumeFacts(s, u, t);
      hide Resume, Step, WakeAsserts;
    }
  }

  lemma {:induction false} PassedOver(s: State, es: seq<Event>, t: ThreadId)
    requires Inv(s) && Clean(s, es) && t < |s.threads| && AlwaysDue(s, es, t) && !Chosen(s, es, t)
    ensures Schedules(es) <= Distance(s, t) + Creates(es)
    decreases |es|
  {
    assert s.current < |s.threads|;
    hide Inv, Due;
    if es != [] {
      DueStep(s, es[0], t);
      StepKeepsInv(s, es[0]);
      PassedOver(Step(s, es[0]), es[1..], t);
    }
  }

  /** A thread that is due at every schedule call, whatever it waits for, is chosen within as many calls as there are
      threads, plus one for each thread created meanwhile. */
  lemma NoStarvationWaiting(s: State, es: seq<Event>, t: ThreadId)
    requires Inv(s) && Clean(s, es) && t < |s.threads| && AlwaysDue(s, es, t)
    requires Schedules(es) >= |s.threads| + Creates(es)
    ensures Chosen(s, es, t)
  {
    if !Chosen(s, es, t) {
      PassedOver(s, es, t);
    }
  }

  // ---------- conditions that stay true by themselves ----------

  /** `t` waits, is not suspended, and if it joins then with a finished thread. */
  ghost predicate Settled(s: State, t: ThreadId, b: Block) {
    && t < |s.threads| && s.threads[t].active && s.threads[t].block == b && (t == s.current ==> !s.phase.Running?)
    && (b.Joining? ==> Finished(s, b.joinee))
  }

  lemma SettledStep(s: State, e: Event, t: ThreadId, b: Block)
    requires Inv(s) && Enabled(s, e) && Asserts(s, e) && Settled(s, t, b) && b != NotBlocked && !b.Suspended?
    requires e != Suspend(t) && !Chooses(s, e, t)
    ensures Settled(Step(s, e), t, b)
  {
    if b.Joining? {
      ResultStep(s, e, b.joinee);
    }
    if e.Schedule? {
      hide Inv, Pick, Runnable;
      var r := Pick(s, e.clock, 0);
      if r.Some? {
        assert Step(s, e) == Resume(s, r.value);
        ResumeFacts(s, r.value, t);
        hide Resume, Step, WakeAsserts;
      }
    } else {
      assert ThreadOk(s, t) && s.phase.Running? && t != s.current;
      CallBlock(s, e, t);
      StillActive(s, e, t);
      hide Inv, Step, Asserts, Pick, Finished;
    }
  }

  lemma StillActive(s: State, e: Event, t: ThreadId)
    requires Enabled(s, e) && Asserts(s, e) && !e.Schedule? && t < |s.threads| && t != s.current
    ensures t < |Step(s, e).threads| && Step(s, e).threads[t].active == s.threads[t].active
  {
    hide Asserts, Pick, LockOutcome, UnlockOutcome;
  }

  /** The clock has passed the end of `t`'s sleep at every schedule call of the run. */
  predicate ClocksPast(es: seq<Event>, t: ThreadId, until: int) {
    forall i :: 0 <= i < |es| && es[i].Schedule? ==> es[i].clock(t) >= until
  }

  lemma {:induction false} SettledDue(s: State, es: seq<Event>, t: ThreadId, b: Block)
    requires Inv(s) && Clean(s, es) && Settled(s, t, b) && Suspend(t) !in es
    requires b.Sleeping? || b.Joining?
    requires b.Sleeping? ==> ClocksPast(es, t, b.until)
    ensures AlwaysDue(s, es, t)
    decreases |es|
  {
    hide Inv, Settled;
    if es != [] {
      SettledIsDue(s, es[0], t, b);
      if !Chooses(s, es[0], t) {
        SettledStep(s, es[0], t, b);
        StepKeepsInv(s, es[0]);
        assert b.Sleeping? ==> ClocksPast(es[1..], t, b.until);
        SettledDue(Step(s, es[0]), es[1..], t, b);
      }
    }
  }

  lemma SettledIsDue(s: State, e: Event, t: ThreadId, b: Block)
    requires Settled(s, t, b) && (b.Sleeping? || b.Joining?)
    requires e.Schedule? && b.Sleeping? ==> e.clock(t) >= b.until
    ensures e.Schedule? ==> Due(s, t, e.clock(t))
  {
  }

  /** A sleeper that nobody suspends is chosen within the bound once its time has passed. */
  lemma SleeperWakes(s: State, es: seq<Event>, t: ThreadId, until: int)
    requires Inv(s) && Clean(s, es) && Settled(s, t, Sleeping(until)) && Suspend(t) !in es && ClocksPast(es, t, until)
    requires Schedules(es) >= |s.threads| + Creates(es)
    ensures Chosen(s, es, t)
  {
    SettledDue(s, es, t, Sleeping(until));
    NoStarvationWaiting(s, es, t);
  }

  /** A thread that joins with a finished thread and that nobody suspends is chosen within the bound. */
  lemma JoinerWakes(s: State, es: seq<Event>, t: ThreadId, j: ThreadId, ptr: nat)
    requires Inv(s) && Clean(s, es) && Settled(s, t, Joining(j, ptr)) && Suspend(t) !in es
    requires Schedules(es) >= |s.threads| + Creates(es)
    ensures Chosen(s, es, t)
  {
    SettledDue(s, es, t, Joining(j, ptr));
    NoStarvationWaiting(s, es, t);
  }

  /** A new thread that nobody suspends gets to run, with blank registers; its creation touches no other
      thread. */
  lemma NewThreadRuns(s: State, es: seq<Event>)
    requires Inv(s) && Enabled(s, Create) && Asserts(s, Create) && Clean(Step(s, Create), es)
    requires Suspend(|s.threads|) !in es && Schedules(es) >= |s.threads| + 1 + Creates(es)
    ensures var s0 := Step(s, Create);
            && s0.threads[..|s.threads|] == s.threads && Regs(s0, |s.threads|) == NEW_CONTEXT
            && Chosen(s0, es, |s.threads|)
  {
    StepKeepsInv(s, Create);
    assert Ready(Step(s, Create), |s.threads|);
    NoStarvation(Step(s, Create), es, |s.threads|);
  }
}
