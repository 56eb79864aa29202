/** What every step of the thread state machine keeps. */
module ThreadInvariant {
  import opened Options
  import opened Threads

  ghost predicate WellFormed(b: Block) {
    b.Suspended? ==> b.count > 0 && !b.previous.Suspended?
  }

  /** Whatever a thread waits for exists. */
  ghost predicate Exists(s: State, b: Block) {
    match b
    case OnMutex(m) => m in s.mutexes
    case OnSemaphore(x) => x in s.sems
    case Joining(j, _) => j < |s.threads|
    case _ => true
  }

  /** The running thread has its registers in the CPU and its coroutine in the executor's hands; every other thread
      has both stored, except that a finished thread has no coroutine. */
  ghost predicate ContextsOk(s: State, t: ThreadId)
    requires t < |s.threads|
  {
    var th := s.threads[t];
    if t == s.current then
      && th.guest.None? && th.coroutine.None?
      && (th.active <==> !s.phase.Exited?)
      && (s.phase.Yielded? || Underlying(th.block).NotBlocked?)
    else
      && th.guest.Some?
      && th.coroutine == if th.active then Some(t) else None
  }

  ghost predicate ThreadOk(s: State, t: ThreadId)
    requires t < |s.threads|
  {
    var th := s.threads[t];
    && WellFormed(th.block)
    && (!th.active ==> Underlying(th.block).NotBlocked? && th.result.Some?)
    && Exists(s, Underlying(th.block))
    && ContextsOk(s, t)
    && (t == s.current && s.phase.Yielded? ==> !th.block.Suspended?)
  }

  /** The threads blocked on a mutex, whether suspended meanwhile or not. */
  ghost function Waiters(threads: seq<Thread>, m: MutexId): set<ThreadId> {
    set t: nat | t < |threads| && Underlying(threads[t].block) == OnMutex(m)
  }

  ghost predicate MutexOk(s: State, m: MutexId)
    requires m in s.mutexes
  {
    var x := s.mutexes[m];
    && m < s.mutexCount
    && (x.locked.Some? ==> x.locked.value.0 < |s.threads| && x.locked.value.1 >= 1
                           && (!x.kind.Recursive? ==> x.locked.value.1 == 1))
    && x.waiting == |Waiters(s.threads, m)|
  }

  ghost predicate Inv(s: State) {
    && s.current < |s.threads|
    && s.held == (if s.phase.Exited? then None else Some(s.current))
    && (forall t :: 0 <= t < |s.threads| ==> ThreadOk(s, t))
    && (forall m :: m in s.mutexes ==> MutexOk(s, m))
    && (forall x :: x in s.sems ==> s.sems[x] >= 0)
  }

  lemma InitialInv(cpu: Context)
    ensures Inv(Initial(cpu))
  {
  }

  // ---------- counting waiters ----------

  lemma WaitersChange(threads: seq<Thread>, t: ThreadId, th: Thread, m: MutexId)
    requires t < |threads|
    ensures Waiters(threads[t := th], m)
            == if Underlying(th.block) == OnMutex(m) then Waiters(threads, m) + {t} else Waiters(threads, m) - {t}
  {
  }

  lemma WaitersSame(threads: seq<Thread>, threads': seq<Thread>, m: MutexId)
    requires |threads| <= |threads'|
    requires forall t :: 0 <= t < |threads| ==> Underlying(threads'[t].block) == Underlying(threads[t].block)
    requires forall t :: |threads| <= t < |threads'| ==> Underlying(threads'[t].block).NotBlocked?
    ensures Waiters(threads', m) == Waiters(threads, m)
  {
  }

  // ---------- the original's assertions ----------

  /** The assertion at the start of every yield fails exactly for a thread that has suspended itself; resuming itself
      brings it back. */
  lemma SelfSuspension(s: State)
    requires Inv(s) && s.phase.Running?
    ensures s.threads[s.current].block.NotBlocked? <==> CanYield(s)
    ensures var s' := WithBlock(s, s.current, SuspendBlock(s.threads[s.current].block));
            !CanYield(s') && ResumeBlock(s'.threads[s.current].block) == s.threads[s.current].block
  {
    assert ThreadOk(s, s.current);
  }

  /** In a state that satisfies the invariant, no assertion or unwrap of the original fails. */
  lemma InvImpliesAsserts(s: State, e: Event)
    requires Inv(s) && Enabled(s, e)
    ensures Asserts(s, e)
  {
    match e {
      case Schedule(clock) =>
        var r := Pick(s, clock, 0);
        if r.Some? {
          WakeAssertsHold(s, r.value, clock(r.value));
        }
        forall t | 0 <= t < |s.threads| && s.threads[t].block.Suspended?
          ensures s.threads[t].block.count > 0
        {
          assert ThreadOk(s, t);
        }
      case Unlock(m) => assert MutexOk(s, m);
      case Unsuspend(t) => assert ThreadOk(s, t);
      case _ =>
        assert ThreadOk(s, s.current);
    }
  }

  lemma WakeAssertsHold(s: State, t: ThreadId, now: int)
    requires Inv(s) && t < |s.threads| && Runnable(s, t, now) && !s.phase.Running?
    ensures WakeAsserts(s, t)
  {
    assert ThreadOk(s, t) && ThreadOk(s, s.current);
    match s.threads[t].block {
      case OnMutex(m) =>
        assert MutexOk(s, m);
        assert t in Waiters(s.threads, m);
      case Joining(j, _) => assert ThreadOk(s, j);
      case _ =>
    }
  }

  // ---------- every step keeps the invariant ----------

  /** A change that leaves threads alone and keeps every mutex and semaphore that exists. */
  lemma OtherThreadsKeep(s: State, s': State)
    requires Inv(s) && s'.threads == s.threads && s'.current == s.current && s'.phase == s.phase && s'.held == s.held
    requires s.mutexes.Keys <= s'.mutexes.Keys && s.sems.Keys <= s'.sems.Keys
    requires forall m :: m in s'.mutexes ==> MutexOk(s', m)
    requires forall x :: x in s'.sems ==> s'.sems[x] >= 0
    ensures Inv(s')
  {
    forall t | 0 <= t < |s'.threads|
      ensures ThreadOk(s', t)
    {
      assert ThreadOk(s, t);
    }
  }

  lemma CreateKeeps(s: State)
    requires Inv(s) && Enabled(s, Create)
    ensures Inv(Step(s, Create))
  {
    var s' := Step(s, Create);
    forall t | 0 <= t < |s'.threads|
      ensures ThreadOk(s', t)
    {
      if t < |s.threads| {
        assert ThreadOk(s, t);
      }
    }
    forall m | m in s'.mutexes
      ensures MutexOk(s', m)
    {
      assert MutexOk(s, m);
      WaitersSame(s.threads, s'.threads, m);
    }
  }

  lemma InitMutexKeeps(s: State, k: MutexKind)
    requires Inv(s) && Enabled(s, InitMutex(k))
    ensures Inv(Step(s, InitMutex(k)))
  {
    var s' := Step(s, InitMutex(k));
    forall m | m in s'.mutexes
      ensures MutexOk(s', m)
    {
      if m == s.mutexCount {
        NoWaitersForNew(s);
      } else {
        assert MutexOk(s, m);
      }
    }
    OtherThreadsKeep(s, s');
  }

  lemma NoWaitersForNew(s: State)
    requires Inv(s)
    ensures Waiters(s.threads, s.mutexCount) == {} && s.mutexCount !in s.mutexes
  {
    assert s.mutexCount in s.mutexes ==> MutexOk(s, s.mutexCount);
    forall t | 0 <= t < |s.threads|
      ensures Underlying(s.threads[t].block) != OnMutex(s.mutexCount)
    {
      assert ThreadOk(s, t);
    }
  }

  /** A destroyed mutex had no waiter. */
  lemma DestroyKeeps(s: State, m: MutexId)
    requires Inv(s) && Enabled(s, Destroy(m))
    ensures Inv(Step(s, Destroy(m)))
    ensures DestroyOutcome(s, m).Ok? ==> Waiters(s.threads, m) == {}
  {
    var s' := Step(s, Destroy(m));
    assert MutexOk(s, m);
    if DestroyOutcome(s, m).Ok? {
      forall t | 0 <= t < |s'.threads|
        ensures ThreadOk(s', t)
      {
        assert ThreadOk(s, t);
        assert t !in Waiters(s.threads, m);
      }
      forall x | x in s'.mutexes
        ensures MutexOk(s', x)
      {
        assert MutexOk(s, x);
      }
    }
  }

  /** A change of one mutex's owner. */
  lemma RelabelKeeps(s: State, m: MutexId, l: Option<(ThreadId, nat)>)
    requires Inv(s) && m in s.mutexes
    requires l.Some? ==> l.value.0 < |s.threads| && l.value.1 >= 1 && (!s.mutexes[m].kind.Recursive? ==> l.value.1 == 1)
    ensures Inv(WithLock(s, m, l))
  {
    var s' := WithLock(s, m, l);
    forall x | x in s'.mutexes
      ensures MutexOk(s', x)
    {
      assert MutexOk(s, x);
    }
    OtherThreadsKeep(s, s');
  }

  /** The current thread yields with a reason that exists, other than a mutex. */
  lemma YieldKeeps(s: State, b: Block)
    requires Inv(s) && s.phase.Running? && CanYield(s) && !b.Suspended? && Exists(s, b) && !b.OnMutex?
    ensures Inv(YieldOn(s, b))
  {
    var s' := YieldOn(s, b);
    assert ThreadOk(s, s.current);
    forall t | 0 <= t < |s'.threads|
      ensures ThreadOk(s', t)
    {
      assert ThreadOk(s, t);
    }
    forall m | m in s'.mutexes
      ensures MutexOk(s', m)
    {
      assert MutexOk(s, m);
      WaitersChange(s.threads, s.current, s'.threads[s.current], m);
      assert s.current !in Waiters(s.threads, m);
    }
  }

  lemma BlockOnMutexKeeps(s: State, m: MutexId)
    requires Inv(s) && Enabled(s, Lock(m)) && LockOutcome(s, m).Blocks?
    ensures Inv(LockMutex(s, m))
  {
    var s' := LockMutex(s, m);
    assert ThreadOk(s, s.current);
    forall t | 0 <= t < |s'.threads|
      ensures ThreadOk(s', t)
    {
      assert ThreadOk(s, t);
    }
    forall x | x in s'.mutexes
      ensures MutexOk(s', x)
    {
      assert MutexOk(s, x);
      WaitersChange(s.threads, s.current, s'.threads[s.current], x);
      assert s.current !in Waiters(s.threads, x);
    }
  }

  lemma LockKeeps(s: State, m: MutexId)
    requires Inv(s) && Enabled(s, Lock(m))
    ensures Inv(LockMutex(s, m))
  {
    assert MutexOk(s, m);
    match LockOutcome(s, m) {
      case Ok(n) => RelabelKeeps(s, m, Some((s.current, n)));
      case Blocks => BlockOnMutexKeeps(s, m);
      case _ =>
    }
  }

  lemma UnlockKeeps(s: State, m: MutexId)
    requires Inv(s) && Enabled(s, Unlock(m))
    ensures Inv(UnlockMutex(s, m))
  {
    assert MutexOk(s, m);
    match UnlockOutcome(s, m) {
      case Ok(n) => RelabelKeeps(s, m, if n == 0 then None else Some((s.mutexes[m].locked.value.0, n)));
      case _ =>
    }
  }

  /** A change of suspension keeps what the thread waits for. */
  lemma SuspensionKeeps(s: State, t: ThreadId, b: Block)
    requires Inv(s) && t < |s.threads| && s.phase.Running?
    requires WellFormed(b) && Underlying(b) == Underlying(s.threads[t].block)
    ensures Inv(WithBlock(s, t, b))
  {
    var s' := WithBlock(s, t, b);
    forall u | 0 <= u < |s'.threads|
      ensures ThreadOk(s', u)
    {
      assert ThreadOk(s, u);
    }
    forall m | m in s'.mutexes
      ensures MutexOk(s', m)
    {
      assert MutexOk(s, m);
      WaitersSame(s.threads, s'.threads, m);
    }
  }

  lemma ExitKeeps(s: State, r: int)
    requires Inv(s) && Enabled(s, Exit(r))
    ensures Inv(Step(s, Exit(r)))
  {
    var s' := Step(s, Exit(r));
    assert ThreadOk(s, s.current);
    forall t | 0 <= t < |s'.threads|
      ensures ThreadOk(s', t)
    {
      assert ThreadOk(s, t);
    }
    forall m | m in s'.mutexes
      ensures MutexOk(s', m)
    {
      assert MutexOk(s, m);
      WaitersSame(s.threads, s'.threads, m);
    }
  }

  /** Everything but what the awakened thread waits for stays true; registers and coroutines are not touched. */
  lemma WakeKeeps(s: State, t: ThreadId)
    requires Inv(s) && !s.phase.Running? && t < |s.threads| && WakeAsserts(s, t)
    requires s.threads[t].active && !s.threads[t].block.Suspended?
    requires s.threads[t].block.OnSemaphore? ==> s.sems[s.threads[t].block.sem] > 0
    ensures Inv(Wake(s, t)) && Wake(s, t).threads == s.threads[t := s.threads[t].(block := NotBlocked)]
  {
    WakeThreads(s, t);
    forall m | m in Wake(s, t).mutexes
      ensures MutexOk(Wake(s, t), m)
    {
      WakeMutexOk(s, t, m);
    }
    hide MutexOk, ThreadOk;
  }

  lemma WakeThreads(s: State, t: ThreadId)
    requires Inv(s) && !s.phase.Running? && t < |s.threads| && WakeAsserts(s, t)
    requires s.threads[t].active && !s.threads[t].block.Suspended?
    ensures Wake(s, t).threads == s.threads[t := s.threads[t].(block := NotBlocked)]
    ensures forall u :: 0 <= u < |Wake(s, t).threads| ==> ThreadOk(Wake(s, t), u)
  {
    forall u | 0 <= u < |Wake(s, t).threads|
      ensures ThreadOk(Wake(s, t), u)
    {
      WakeThreadOk(s, t, u);
    }
  }

  lemma WakeThreadOk(s: State, t: ThreadId, u: ThreadId)
    requires Inv(s) && !s.phase.Running? && t < |s.threads| && WakeAsserts(s, t)
    requires s.threads[t].active && !s.threads[t].block.Suspended? && u < |s.threads|
    ensures Wake(s, t).threads == s.threads[t := s.threads[t].(block := NotBlocked)]
    ensures ThreadOk(Wake(s, t), u)
  {
    assert ThreadOk(s, u);
    hide Inv;
  }

  lemma WakeMutexOk(s: State, t: ThreadId, m: MutexId)
    requires Inv(s) && t < |s.threads| && WakeAsserts(s, t) && m in Wake(s, t).mutexes
    requires !s.threads[t].block.Suspended?
    ensures MutexOk(Wake(s, t), m)
  {
    hide Waiters;
    assert m in s.mutexes && MutexOk(s, m);
    hide Inv;
    OneWaiterLess(s.threads, t, m);
  }

  lemma OneWaiterLess(threads: seq<Thread>, t: ThreadId, m: MutexId)
    requires t < |threads| && !threads[t].block.Suspended?
    ensures |Waiters(threads[t := threads[t].(block := NotBlocked)], m)|
            == |Waiters(threads, m)| - if threads[t].block == OnMutex(m) then 1 else 0
  {
    var th := threads[t].(block := NotBlocked);
    WaitersChange(threads, t, th, m);
    assert t in Waiters(threads, m) <==> threads[t].block == OnMutex(m);
    assert threads[t].block != OnMutex(m) ==> Waiters(threads, m) - {t} == Waiters(threads, m);
  }

  lemma SwitchKeeps(s: State, t: ThreadId)
    requires Inv(s) && !s.phase.Running? && t < |s.threads| && t != s.current
    requires s.threads[t].active && s.threads[t].block.NotBlocked? && s.threads[t].guest.Some?
    ensures Inv(Switch(s, t).(phase := Running))
  {
    var s' := Switch(s, t).(phase := Running);
    assert ThreadOk(s, s.current);
    assert ThreadOk(s, t);
    forall u | 0 <= u < |s'.threads|
      ensures ThreadOk(s', u)
    {
      assert ThreadOk(s, u);
    }
    forall m | m in s'.mutexes
      ensures MutexOk(s', m)
    {
      assert MutexOk(s, m);
      WaitersSame(s.threads, s'.threads, m);
    }
  }

  lemma StayKeeps(s: State)
    requires Inv(s) && s.phase.Yielded? && s.threads[s.current].block.NotBlocked?
    ensures Inv(s.(phase := Running))
  {
    var s' := s.(phase := Running);
    forall u | 0 <= u < |s'.threads|
      ensures ThreadOk(s', u)
    {
      assert ThreadOk(s, u);
    }
    forall m | m in s'.mutexes
      ensures MutexOk(s', m)
    {
      assert MutexOk(s, m);
    }
  }

  lemma ResumeKeeps(s: State, t: ThreadId, now: int)
    requires Inv(s) && !s.phase.Running? && t < |s.threads| && Runnable(s, t, now)
    requires t != s.current ==> s.threads[t].guest.Some?
    ensures Inv(Resume(s, t))
  {
    WakeAssertsHold(s, t, now);
    WakeKeeps(s, t);
    assert ThreadOk(s, s.current);
    if t == s.current {
      StayKeeps(Wake(s, t));
    } else {
      SwitchKeeps(Wake(s, t), t);
    }
  }

  /** Every event keeps the invariant. */
  lemma StepKeepsInv(s: State, e: Event)
    requires Inv(s) && Enabled(s, e) && Asserts(s, e)
    ensures Inv(Step(s, e))
  {
    hide Inv, Pick;
    match e {
      case Compute(c) => SimpleKeeps(s, e);
      case Create => CreateKeeps(s);
      case InitMutex(k) => InitMutexKeeps(s, k);
      case Destroy(m) => DestroyKeeps(s, m);
      case Lock(m) => LockKeeps(s, m);
      case Unlock(m) => UnlockKeeps(s, m);
      case InitSem(_, _) => SimpleKeeps(s, e);
      case SemUp(_) => SimpleKeeps(s, e);
      case SemDown(x, wait) => if Blocking(s, e) { YieldKeeps(s, OnSemaphore(x)); } else { SimpleKeeps(s, e); }
      case Sleep(until) => YieldKeeps(s, Sleeping(until));
      case Join(j, ptr) => YieldKeeps(s, Joining(j, ptr));
      case YieldNow => YieldKeeps(s, NotBlocked);
      case Suspend(t) => SuspendKeeps(s, t);
      case Unsuspend(t) => UnsuspendKeeps(s, t);
      case Exit(r) => ExitKeeps(s, r);
      case Schedule(clock) =>
        var r := Pick(s, clock, 0);
        if r.Some? {
          ResumeKeeps(s, r.value, clock(r.value));
        }
    }
  }

  lemma SuspendKeeps(s: State, t: ThreadId)
    requires Inv(s) && Enabled(s, Suspend(t))
    ensures Inv(Step(s, Suspend(t)))
  {
    assert ThreadOk(s, t);
    SuspensionKeeps(s, t, SuspendBlock(s.threads[t].block));
  }

  lemma UnsuspendKeeps(s: State, t: ThreadId)
    requires Inv(s) && Enabled(s, Unsuspend(t)) && Asserts(s, Unsuspend(t))
    ensures Inv(Step(s, Unsuspend(t)))
  {
    assert ThreadOk(s, t);
    SuspensionKeeps(s, t, ResumeBlock(s.threads[t].block));
  }

  /** Events that change registers or a semaphore only. */
  lemma SimpleKeeps(s: State, e: Event)
    requires Inv(s) && Enabled(s, e) && Asserts(s, e) && !Blocking(s, e)
    requires e.Compute? || e.InitSem? || e.SemUp? || e.SemDown?
    ensures Inv(Step(s, e))
  {
    var s' := Step(s, e);
    forall m | m in s'.mutexes
      ensures MutexOk(s', m)
    {
      assert MutexOk(s, m);
    }
    OtherThreadsKeep(s, s');
  }
}
