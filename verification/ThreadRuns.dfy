/** What holds over whole runs of the thread state machine. */
module ThreadRuns {
  import opened Options
  import opened Threads
  import opened ThreadInvariant

  /** Callers keep their side of every call of the run. */
  ghost predicate Legal(s: State, es: seq<Event>)
    decreases |es|
  {
    es == [] || (Enabled(s, es[0]) && (Asserts(s, es[0]) ==> Legal(Step(s, es[0]), es[1..])))
  }

  /** Moreover no assertion or unwrap of the original fails. */
  ghost predicate Clean(s: State, es: seq<Event>)
    decreases |es|
  {
    es == [] || (Enabled(s, es[0]) && Asserts(s, es[0]) && Clean(Step(s, es[0]), es[1..]))
  }

  ghost function Last(s: State, es: seq<Event>): State
    requires Clean(s, es)
    decreases |es|
  {
    if es == [] then s else Last(Step(s, es[0]), es[1..])
  }

  /** From a good state, in particular from the initial one, no assertion ever fails and the invariant always holds. */
  lemma {:induction false} RunsAreClean(s: State, es: seq<Event>)
    requires Inv(s) && Legal(s, es)
    ensures Clean(s, es) && Inv(Last(s, es))
    decreases |es|
  {
    hide Inv;
    if es != [] {
      InvImpliesAsserts(s, es[0]);
      StepKeepsInv(s, es[0]);
      RunsAreClean(Step(s, es[0]), es[1..]);
    }
  }

  lemma {:induction false} CleanKeepsInv(s: State, es: seq<Event>)
    requires Inv(s) && Clean(s, es)
    ensures Inv(Last(s, es)) && |Last(s, es).threads| >= |s.threads|
    decreases |es|
  {
    hide Inv;
    if es != [] {
      StepKeepsInv(s, es[0]);
      StepKeepsThreads(s, es[0]);
      CleanKeepsInv(Step(s, es[0]), es[1..]);
    }
  }

  lemma StepKeepsThreads(s: State, e: Event)
    requires Enabled(s, e) && Asserts(s, e)
    ensures |Step(s, e).threads| == |s.threads| + (if e.Create? then 1 else 0)
    ensures !e.Schedule? ==> Step(s, e).current == s.current
  {
    if e.Schedule? {
      hide Pick, Runnable;
      var r := Pick(s, e.clock, 0);
      if r.Some? {
        assert Step(s, e) == Resume(s, r.value);
        ResumeFacts(s, r.value, r.value);
      }
    } else {
      var running := s.current < |s.threads|;
      assert running;
      hide Asserts, Pick, LockOutcome, UnlockOutcome;
    }
  }

  lemma ResumeFacts(s: State, u: ThreadId, t: ThreadId)
    requires s.current < |s.threads| && u < |s.threads| && (u != s.current ==> s.threads[u].guest.Some?)
    requires t < |s.threads|
    ensures var s' := Resume(s, u);
            && s'.current == u && |s'.threads| == |s.threads| && s'.phase.Running?
            && s'.threads[t].active == s.threads[t].active
            && s'.threads[t].block == if t == u then NotBlocked else s.threads[t].block
  {
    WakeRegs(s, u);
  }

  /** Exactly the current thread lacks stored registers, and the coroutine resumed next is the current thread's. */
  lemma ContextsInEveryRun(cpu: Context, es: seq<Event>)
    requires Legal(Initial(cpu), es)
    ensures Clean(Initial(cpu), es)
    ensures var s := Last(Initial(cpu), es);
            && (forall t :: 0 <= t < |s.threads| ==> (s.threads[t].guest.None? <==> t == s.current))
            && (s.phase.Running? ==> s.held == Some(s.current))
            && (forall t :: 0 <= t < |s.threads| && s.threads[t].coroutine.Some? ==> s.threads[t].coroutine == Some(t))
  {
    InitialInv(cpu);
    RunsAreClean(Initial(cpu), es);
    var s := Last(Initial(cpu), es);
    forall t | 0 <= t < |s.threads|
      ensures s.threads[t].guest.None? <==> t == s.current
      ensures s.threads[t].coroutine.Some? ==> s.threads[t].coroutine == Some(t)
    {
      assert ThreadOk(s, t);
    }
  }

  // ---------- which thread a schedule call chooses ----------

  /** The event is a schedule call that chooses `t`. */
  predicate Chooses(s: State, e: Event, t: ThreadId)
    requires Enabled(s, e)
  {
    e.Schedule? && Pick(s, e.clock, 0) == Some(t)
  }

  ghost predicate Chosen(s: State, es: seq<Event>, t: ThreadId)
    requires Clean(s, es)
    decreases |es|
  {
    es != [] && (Chooses(s, es[0], t) || Chosen(Step(s, es[0]), es[1..], t))
  }

  // ---------- registers survive ----------

  /** A thread's registers, wherever they are kept. */
  function Regs(s: State, t: ThreadId): Context
    requires t < |s.threads|
  {
    if t == s.current then s.cpu else if s.threads[t].guest.Some? then s.threads[t].guest.value else []
  }

  /** The registers `t` would have if it were alone: what its own computation last left, starting from `r`. */
  ghost function OwnRegs(s: State, es: seq<Event>, t: ThreadId, r: Context): Context
    requires Clean(s, es)
    decreases |es|
  {
    if es == [] then r
    else OwnRegs(Step(s, es[0]), es[1..], t, if es[0].Compute? && s.current == t then es[0].cpu else r)
  }

  lemma StepRegs(s: State, e: Event, t: ThreadId)
    requires Inv(s) && Enabled(s, e) && Asserts(s, e) && t < |s.threads|
    ensures t < |Step(s, e).threads|
    ensures Regs(Step(s, e), t) == if e.Compute? && s.current == t then e.cpu else Regs(s, t)
  {
    if e.Schedule? {
      ScheduleRegs(s, e, t);
    } else {
      hide Enabled, Asserts, Pick, LockOutcome, UnlockOutcome, Inv;
    }
  }

  lemma ScheduleRegs(s: State, e: Event, t: ThreadId)
    requires Inv(s) && Enabled(s, e) && Asserts(s, e) && t < |s.threads| && e.Schedule?
    ensures t < |Step(s, e).threads|
    ensures Regs(Step(s, e), t) == Regs(s, t)
  {
    hide Enabled, Pick, Runnable;
    var r := Pick(s, e.clock, 0);
    if r.Some? {
      assert r.value < |s.threads| && WakeAsserts(s, r.value);
      assert Step(s, e) == Resume(s, r.value);
      WakeRegs(s, r.value);
      if r.value != s.current {
        SwitchRegs(Wake(s, r.value), r.value, t);
      }
    }
  }

  lemma WakeRegs(s: State, t: ThreadId)
    requires t < |s.threads|
    ensures Wake(s, t).threads == s.threads[t := s.threads[t].(block := NotBlocked)]
    ensures Wake(s, t).cpu == s.cpu && Wake(s, t).current == s.current && Wake(s, t).held == s.held
  {
  }

  lemma SwitchRegs(s: State, u: ThreadId, t: ThreadId)
    requires s.current < |s.threads| && u < |s.threads| && u != s.current && s.threads[u].guest.Some? && t < |s.threads|
    ensures Regs(Switch(s, u), t) == Regs(s, t) && Switch(s, u).current == u
  {
  }

  /** Whatever other threads do and however often threads are switched, each thread finds its registers as it left
      them. */
  lemma {:induction false} RegistersSurvive(s: State, es: seq<Event>, t: ThreadId)
    requires Inv(s) && Clean(s, es) && t < |s.threads|
    ensures t < |Last(s, es).threads| && Regs(Last(s, es), t) == OwnRegs(s, es, t, Regs(s, t))
    decreases |es|
  {
    hide Inv;
    if es != [] {
      StepRegs(s, es[0], t);
      StepKeepsInv(s, es[0]);
      RegistersSurvive(Step(s, es[0]), es[1..], t);
    }
  }

  // ---------- no starvation ----------

  function Schedules(es: seq<Event>): nat {
    if es == [] then 0 else (if es[0].Schedule? then 1 else 0) + Schedules(es[1..])
  }

  function Creates(es: seq<Event>): nat {
    if es == [] then 0 else (if es[0].Create? then 1 else 0) + Creates(es[1..])
  }

  /** The thread could run but does not. */
  predicate Ready(s: State, t: ThreadId) {
    t < |s.threads| && s.threads[t].active && s.threads[t].block.NotBlocked? && (t == s.current ==> !s.phase.Running?)
  }

  /** How many candidates the scheduler looks at before `t`. */
  function Distance(s: State, t: ThreadId): int {
    if t > s.current then t - s.current - 1 else t + |s.threads| - s.current - 1
  }

  lemma CandidateAt(s: State, i: nat)
    requires s.current < |s.threads| && i < |s.threads|
    ensures Candidate(s, i)
            == if s.current + 1 + i < |s.threads| then s.current + 1 + i else s.current + 1 + i - |s.threads|
    ensures Distance(s, Candidate(s, i)) == i
  {
    Wrap(s.current + 1 + i, |s.threads|);
  }

  lemma Wrap(x: nat, n: nat)
    requires x < 2 * n
    ensures x % n == if x < n then x else x - n
  {
    if x >= n {
      assert x == n * 1 + (x - n);
      assert x / n == 1;
    }
  }

  /** The scheduler takes a thread no farther away than any runnable one. */
  lemma {:induction false} PickIsNearest(s: State, clock: ThreadId -> int, i: nat, t: ThreadId)
    requires s.current < |s.threads| && t < |s.threads| && i <= Distance(s, t) && Runnable(s, t, clock(t))
    ensures Pick(s, clock, i).Some?
    ensures i <= Distance(s, Pick(s, clock, i).value) <= Distance(s, t)
    decreases |s.threads| - i
  {
    CandidateAt(s, i);
    CandidateAt(s, Distance(s, t));
    if !Runnable(s, Candidate(s, i), clock(Candidate(s, i))) {
      PickIsNearest(s, clock, i + 1, t);
    }
  }

  lemma ReadyStep(s: State, e: Event, t: ThreadId)
    requires Inv(s) && Enabled(s, e) && Asserts(s, e)
    requires Ready(s, t) && e != Suspend(t) && !Chooses(s, e, t)
    ensures Ready(Step(s, e), t)
    ensures (if e.Schedule? then 1 else 0) + Distance(Step(s, e), t) <= Distance(s, t) + (if e.Create? then 1 else 0)
  {
    if e.Schedule? {
      ReadySchedule(s, e, t);
    } else {
      assert ThreadOk(s, t);
      hide Enabled, Asserts, Pick, LockOutcome, UnlockOutcome, Inv;
      StepKeepsThreads(s, e);
      ReadyKept(s, e, t);
    }
  }

  lemma ReadyKept(s: State, e: Event, t: ThreadId)
    requires Enabled(s, e) && Asserts(s, e) && !e.Schedule? && Ready(s, t) && e != Suspend(t)
    ensures Ready(Step(s, e), t)
  {
    var running := s.phase.Running?;
    assert running;
    hide Asserts, Pick, LockOutcome, UnlockOutcome;
  }

  lemma ReadySchedule(s: State, e: Event, t: ThreadId)
    requires Inv(s) && Enabled(s, e) && Asserts(s, e) && e.Schedule?
    requires Ready(s, t) && !Chooses(s, e, t)
    ensures Ready(Step(s, e), t) && 1 + Distance(Step(s, e), t) <= Distance(s, t)
  {
    PickIsNearest(s, e.clock, 0, t);
    hide Inv, Enabled, Pick, Runnable;
    var r := Pick(s, e.clock, 0);
    assert r.value != t && r.value < |s.threads| && WakeAsserts(s, r.value);
    assert s.current < |s.threads| && (r.value != s.current ==> s.threads[r.value].guest.Some?);
    assert Step(s, e) == Resume(s, r.value);
    ResumeFacts(s, r.value, t);
    hide Resume, Step, WakeAsserts;
  }

  lemma {:induction false} Overtaken(s: State, es: seq<Event>, t: ThreadId)
    requires Inv(s) && Clean(s, es) && Ready(s, t)
    requires Suspend(t) !in es && !Chosen(s, es, t)
    ensures Schedules(es) <= Distance(s, t) + Creates(es)
    decreases |es|
  {
    assert s.current < |s.threads|;
    hide Inv;
    if es != [] {
      ReadyStep(s, es[0], t);
      StepKeepsInv(s, es[0]);
      Overtaken(Step(s, es[0]), es[1..], t);
    }
  }

  /** A ready thread that nobody suspends is chosen within as many schedule calls as there are threads, plus one
      for each thread created meanwhile. */
  lemma NoStarvation(s: State, es: seq<Event>, t: ThreadId)
    requires Inv(s) && Clean(s, es) && Ready(s, t) && Suspend(t) !in es
    requires Schedules(es) >= |s.threads| + Creates(es)
    ensures Chosen(s, es, t)
  {
    if !Chosen(s, es, t) {
      Overtaken(s, es, t);
    }
  }
}
