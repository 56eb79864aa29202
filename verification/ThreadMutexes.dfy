/** What the mutex calls answer and change, in terms of the mutex alone, and what nested locks come to. */
module ThreadMutexes {
  import opened Options
  import opened Threads
  import opened ThreadInvariant
  import opened ThreadRuns
  import opened ThreadLocks

  /** The state with another record for `m`. */
  function With(s: State, m: MutexId, x: Mutex): State {
    s.(mutexes := s.mutexes[m := x])
  }

  /** A free mutex is taken once. An owner takes a recursive mutex once more, is told of the deadlock by an
      error-checking one and panics on a plain one. A mutex of another owner makes the caller wait. */
  lemma LockByRecord(s: State, m: MutexId, k: MutexKind, w: nat, n: nat, owner: ThreadId)
    requires s.current < |s.threads| && m in s.mutexes
    ensures s.mutexes[m] == Mutex(k, w, None) ==>
              LockOutcome(s, m) == Ok(1) && LockMutex(s, m) == With(s, m, Mutex(k, w, Some((s.current, 1))))
    ensures s.mutexes[m] == Mutex(Recursive, w, Some((s.current, n))) ==>
              && LockOutcome(s, m) == Ok(n + 1)
              && LockMutex(s, m) == With(s, m, Mutex(Recursive, w, Some((s.current, n + 1))))
    ensures s.mutexes[m] == Mutex(ErrorCheck, w, Some((s.current, n))) ==>
              LockOutcome(s, m) == Deadlock && LockMutex(s, m) == s
    ensures s.mutexes[m] == Mutex(Normal, w, Some((s.current, n))) ==> LockOutcome(s, m) == Panics
    ensures s.mutexes[m] == Mutex(k, w, Some((owner, n))) && owner != s.current ==>
              && LockOutcome(s, m) == Blocks && LockMutex(s, m).phase == Yielded
              && LockMutex(s, m).mutexes == s.mutexes[m := Mutex(k, w + 1, Some((owner, n)))]
              && LockMutex(s, m).threads == s.threads[s.current := s.threads[s.current].(block := OnMutex(m))]
  {
  }

  /** An owner, and on a plain mutex anybody, takes one lock away, the last of which frees the mutex. Everybody else,
      and everybody on a free mutex that is not plain, is refused without a change. */
  lemma UnlockByRecord(s: State, m: MutexId, k: MutexKind, w: nat, n: nat, owner: ThreadId)
    requires m in s.mutexes
    ensures s.mutexes[m] == Mutex(k, w, Some((owner, 1))) && (owner == s.current || k == Normal) ==>
              UnlockOutcome(s, m) == Ok(0) && UnlockMutex(s, m) == With(s, m, Mutex(k, w, None))
    ensures s.mutexes[m] == Mutex(k, w, Some((owner, n + 2))) && (owner == s.current || k == Normal) ==>
              && UnlockOutcome(s, m) == Ok(n + 1)
              && UnlockMutex(s, m) == With(s, m, Mutex(k, w, Some((owner, n + 1))))
    ensures s.mutexes[m] == Mutex(k, w, Some((owner, n))) && owner != s.current && k != Normal ==>
              UnlockOutcome(s, m) == NotPermitted && UnlockMutex(s, m) == s
    ensures s.mutexes[m] == Mutex(k, w, None) && k != Normal ==>
              UnlockOutcome(s, m) == NotPermitted && UnlockMutex(s, m) == s
    ensures s.mutexes[m] == Mutex(Normal, w, None) ==> UnlockOutcome(s, m) == Panics
  {
  }

  /** A mutex goes exactly when nobody holds it and nobody, suspended threads included, waits for it; no other mutex and
      no thread changes. */
  lemma DestroyByRecord(s: State, m: MutexId)
    requires Inv(s) && m in s.mutexes
    ensures DestroyOutcome(s, m) == Ok(0) <==>
              && s.mutexes[m].locked == None
              && forall t :: 0 <= t < |s.threads| ==> Underlying(s.threads[t].block) != OnMutex(m)
    ensures DestroyOutcome(s, m) == Ok(0) ==> DestroyMutex(s, m) == s.(mutexes := s.mutexes - {m})
    ensures DestroyOutcome(s, m) != Ok(0) ==> DestroyOutcome(s, m) == Busy && DestroyMutex(s, m) == s
  {
    assert MutexOk(s, m);
    var waiters := Waiters(s.threads, m);
    if s.mutexes[m].waiting == 0 {
      assert waiters == {};
      forall t | 0 <= t < |s.threads|
        ensures Underlying(s.threads[t].block) != OnMutex(m)
      {
        assert t !in waiters;
      }
    } else {
      var t :| t in waiters;
      assert Underlying(s.threads[t].block) == OnMutex(m);
    }
  }

  // ---------- nested locks ----------

  function Times(e: Event, n: nat): seq<Event> {
    seq(n, _ => e)
  }

  /** A recursive mutex held `n` times by the current thread, with the rest of the state as in `s`. */
  function HeldTimes(s: State, m: MutexId, n: nat): State
    requires m in s.mutexes
  {
    With(s, m, s.mutexes[m].(locked := if n == 0 then None else Some((s.current, n))))
  }

  lemma LockOnce(s: State, m: MutexId, n: nat)
    requires s.current < |s.threads| && m in s.mutexes && s.mutexes[m].kind == Recursive && s.phase.Running?
    ensures var t := HeldTimes(s, m, n);
            && Enabled(t, Lock(m)) && Asserts(t, Lock(m)) && LockOutcome(t, m) == Ok(n + 1)
            && Step(t, Lock(m)) == HeldTimes(s, m, n + 1)
  {
  }

  lemma UnlockOnce(s: State, m: MutexId, n: nat)
    requires s.current < |s.threads| && m in s.mutexes && s.mutexes[m].kind == Recursive && s.phase.Running?
    ensures var t := HeldTimes(s, m, n + 1);
            && Enabled(t, Unlock(m)) && Asserts(t, Unlock(m)) && UnlockOutcome(t, m) == Ok(n)
            && Step(t, Unlock(m)) == HeldTimes(s, m, n)
  {
  }

  lemma {:induction false} LockTimes(s: State, m: MutexId, k: nat, n: nat)
    requires s.current < |s.threads| && m in s.mutexes && s.mutexes[m].kind == Recursive && s.phase.Running?
    ensures Clean(HeldTimes(s, m, k), Times(Lock(m), n))
    ensures Last(HeldTimes(s, m, k), Times(Lock(m), n)) == HeldTimes(s, m, k + n)
    decreases n
  {
    hide HeldTimes, Enabled, Asserts, Step;
    if n > 0 {
      LockOnce(s, m, k);
      LockTimes(s, m, k + 1, n - 1);
      assert Times(Lock(m), n)[1..] == Times(Lock(m), n - 1);
    }
  }

  lemma {:induction false} UnlockTimes(s: State, m: MutexId, k: nat, n: nat)
    requires s.current < |s.threads| && m in s.mutexes && s.mutexes[m].kind == Recursive && s.phase.Running?
    ensures Clean(HeldTimes(s, m, k + n), Times(Unlock(m), n))
    ensures Last(HeldTimes(s, m, k + n), Times(Unlock(m), n)) == HeldTimes(s, m, k)
    decreases n
  {
    hide HeldTimes, Enabled, Asserts, Step;
    if n > 0 {
      UnlockOnce(s, m, k + n - 1);
      UnlockTimes(s, m, k, n - 1);
      assert Times(Unlock(m), n)[1..] == Times(Unlock(m), n - 1);
    }
  }

  lemma HeldTimesMeans(s: State, m: MutexId, n: nat)
    requires m in s.mutexes && s.mutexes[m].kind == Recursive && s.mutexes[m].locked == None
    ensures var t := HeldTimes(s, m, n);
            && m in t.mutexes && Holds(t, m, s.current) == n && (IsLocked(t, m) <==> n > 0)
            && LockOutcome(t, m) == Ok(n + 1) && (n > 0 ==> UnlockOutcome(t, m) == Ok(n - 1))
    ensures HeldTimes(s, m, 0) == s
  {
    assert s.mutexes[m := s.mutexes[m].(locked := None)] == s.mutexes;
  }

  /** Locking a free recursive mutex `n` times in a row is possible, and the next lock answers `n + 1`. Unlocking it `k`
      times then leaves it held `n - k` times and the next unlock answers one less, so that only the `n`-th unlock frees
      it and brings the first state back. */
  lemma NestedLocks(s: State, m: MutexId, n: nat, k: nat)
    requires s.current < |s.threads| && m in s.mutexes && s.phase.Running? && k <= n
    requires s.mutexes[m].kind == Recursive && s.mutexes[m].locked == None
    ensures Clean(s, Times(Lock(m), n)) && Clean(Last(s, Times(Lock(m), n)), Times(Unlock(m), k))
    ensures var held := Last(s, Times(Lock(m), n));
            m in held.mutexes && LockOutcome(held, m) == Ok(n + 1) && Holds(held, m, s.current) == n
    ensures var left := Last(Last(s, Times(Lock(m), n)), Times(Unlock(m), k));
            && m in left.mutexes && Holds(left, m, s.current) == n - k && (IsLocked(left, m) <==> k < n)
            && (k < n ==> UnlockOutcome(left, m) == Ok(n - k - 1))
            && (k == n ==> left == s)
  {
    hide HeldTimes, LockOutcome, UnlockOutcome, Holds, IsLocked, Times, Clean, Last;
    var left := n - k;
    assert 0 + n == n && left + k == n;
    HeldTimesMeans(s, m, n);
    HeldTimesMeans(s, m, left);
    LockTimes(s, m, 0, n);
    UnlockTimes(s, m, left, k);
  }
}
