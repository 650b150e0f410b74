/**
 * The benaphore of benaphore_mutex/benaphore.cc: a lock built from an atomic counter of
 * interested threads and a semaphore that is only touched under contention.
 *
 * Every lock operation is taken as one atomic step by a named thread. `Lock` is split
 * into the step that increments the counter and decides whether to wait (`Lock`), and,
 * for a thread that waits, the later step in which `sem_wait` returns (`Wake`).
 * Besides the two real fields, the state records which threads hold the lock and which
 * are blocked in `sem_wait`; these sets exist only for the proofs.
 */
module SimpleBenaphore {

  type ThreadId = nat

  /** The lock's state: `counter_`, the semaphore's count, and the protocol bookkeeping. */
  datatype State = State(counter: int, sem: nat, holders: set<ThreadId>, waiting: set<ThreadId>)

  /** A freshly constructed benaphore: counter 0 and a semaphore initialised to 0. */
  const Init: State := State(0, 0, {}, {})

  /**
   * Increment the counter; the caller waits iff it was not the only interested thread.
   * Either way it joins the interested threads.
   */
  function LockStep(s: State, t: ThreadId): (r: State)
    ensures r.counter == s.counter + 1 && r.sem == s.sem
    ensures s.counter > 0 ==> r.holders == s.holders && r.waiting == s.waiting + {t}
    ensures s.counter <= 0 ==> r.holders == s.holders + {t} && r.waiting == s.waiting
  {
    var c := s.counter + 1;
    if c > 1 then s.(counter := c, waiting := s.waiting + {t})
    else s.(counter := c, holders := s.holders + {t})
  }

  /** A waiting thread's `sem_wait` returns: it takes one count and now holds the lock. */
  function WakeStep(s: State, t: ThreadId): (r: State)
    requires s.sem > 0
    ensures r.counter == s.counter && r.sem == s.sem - 1
    ensures r.holders == s.holders + {t} && r.waiting == s.waiting - {t}
  {
    s.(sem := s.sem - 1, waiting := s.waiting - {t}, holders := s.holders + {t})
  }

  /**
   * Decrement the counter and post the semaphore iff some thread is still interested;
   * the caller stops holding the lock.
   */
  function UnlockStep(s: State, t: ThreadId): (r: State)
    ensures r.counter == s.counter - 1
    ensures r.sem == s.sem || (r.sem == s.sem + 1 && r.counter > 0)
    ensures r.counter > 0 ==> r.sem == s.sem + 1
    ensures r.holders == s.holders - {t} && r.waiting == s.waiting
  {
    var c := s.counter - 1;
    s.(counter := c, sem := if c > 0 then s.sem + 1 else s.sem, holders := s.holders - {t})
  }

  /** Compare-and-swap the counter from 0 to 1; on failure nothing changes. */
  function TryLockStep(s: State, t: ThreadId): (r: State)
    ensures r == s || (s.counter == 0 && r.counter == 1 && t in r.holders)
    ensures s.counter == 0 ==> r.counter == 1 && r.holders == s.holders + {t}
    ensures r.sem == s.sem && r.waiting == s.waiting
  {
    if s.counter == 0 then s.(counter := 1, holders := s.holders + {t}) else s
  }

  /** One call of a thread. */
  datatype Call = Lock(t: ThreadId) | Wake(t: ThreadId) | Unlock(t: ThreadId) | TryLock(t: ThreadId)

  /**
   * When a call can happen: a thread blocked in `sem_wait` issues no call until its wait
   * returns, which needs a count on the semaphore; `Lock` comes from a thread that does
   * not already hold the lock (a benaphore is not recursive, so that call would deadlock),
   * while a holder's `TryLock` simply fails; only the holder unlocks.
   */
  predicate Allowed(s: State, c: Call)
  {
    match c
    case Lock(t) => t !in s.holders && t !in s.waiting
    case Wake(t) => t in s.waiting && s.sem > 0
    case Unlock(t) => t in s.holders
    case TryLock(t) => t !in s.waiting
  }

  function Step(s: State, c: Call): State
    requires Allowed(s, c)
  {
    match c
    case Lock(t) => LockStep(s, t)
    case Wake(t) => WakeStep(s, t)
    case Unlock(t) => UnlockStep(s, t)
    case TryLock(t) => TryLockStep(s, t)
  }

  /** `cs` is a possible execution from `s`: every call is allowed where it happens. */
  predicate Possible(s: State, cs: seq<Call>)
    decreases |cs|
  {
    |cs| == 0 || (Allowed(s, cs[0]) && Possible(Step(s, cs[0]), cs[1..]))
  }

  function Run(s: State, cs: seq<Call>): State
    requires Possible(s, cs)
    decreases |cs|
  {
    if |cs| == 0 then s else Run(Step(s, cs[0]), cs[1..])
  }

  /**
   * The protocol invariant: the counter counts holders and waiters; while nobody is
   * interested the semaphore is 0; otherwise exactly one of "a thread holds the lock"
   * and "one count waits on the semaphore" is true.
   */
  ghost predicate Inv(s: State)
  {
    s.holders !! s.waiting &&
    s.counter == |s.holders| + |s.waiting| &&
    (s.counter == 0 ==> s.sem == 0) &&
    (s.counter > 0 ==> |s.holders| + s.sem == 1)
  }

  lemma InitInv()
    ensures Inv(Init)
  {
  }

  lemma LockPreservesInv(s: State, t: ThreadId)
    requires Inv(s) && t !in s.holders && t !in s.waiting
    ensures Inv(LockStep(s, t))
  {
    assert t !in s.holders + s.waiting;
  }

  lemma WakePreservesInv(s: State, t: ThreadId)
    requires Inv(s) && t in s.waiting && s.sem > 0
    ensures Inv(WakeStep(s, t))
  {
    assert s.holders == {};
    assert s.waiting == (s.waiting - {t}) + {t};
  }

  lemma UnlockPreservesInv(s: State, t: ThreadId)
    requires Inv(s) && t in s.holders
    ensures Inv(UnlockStep(s, t))
  {
    assert s.holders == {t} by {
      assert |s.holders - {t}| == |s.holders| - 1;
    }
  }

  lemma TryLockPreservesInv(s: State, t: ThreadId)
    requires Inv(s) && t !in s.waiting
    ensures Inv(TryLockStep(s, t))
    ensures t in s.holders ==> TryLockStep(s, t) == s
  {
  }

  /** Every allowed call keeps the invariant. */
  lemma StepPreservesInv(s: State, c: Call)
    requires Inv(s) && Allowed(s, c)
    ensures Inv(Step(s, c))
  {
    match c
    case Lock(t) => LockPreservesInv(s, t);
    case Wake(t) => WakePreservesInv(s, t);
    case Unlock(t) => UnlockPreservesInv(s, t);
    case TryLock(t) => TryLockPreservesInv(s, t);
  }

  /** Every state of a possible execution from a freshly built lock satisfies the invariant. */
  lemma {:induction false} RunPreservesInv(s: State, cs: seq<Call>)
    requires Inv(s) && Possible(s, cs)
    ensures Inv(Run(s, cs))
    decreases |cs|
  {
    if |cs| > 0 {
      StepPreservesInv(s, cs[0]);
      RunPreservesInv(Step(s, cs[0]), cs[1..]);
    }
  }

  /** Mutual exclusion: two holders are the same thread. */
  lemma MutualExclusion(s: State, t1: ThreadId, t2: ThreadId)
    requires Inv(s) && t1 in s.holders && t2 in s.holders
    ensures t1 == t2
  {
    if t1 != t2 {
      AtLeastTwo(s.holders, t1, t2);
    }
  }

  lemma AtLeastTwo(a: set<ThreadId>, x: ThreadId, y: ThreadId)
    requires x in a && y in a && x != y
    ensures |a| >= 2
  {
    var rest := a - {x};
    assert y in rest;
    assert |a| == |rest| + 1;
  }

  /**
   * No lost wakeup: while some thread waits and nobody holds the lock, the semaphore has a
   * count, so a waiter can proceed; and the semaphore never has a count that would let a
   * second thread in beside a holder.
   */
  lemma NoLostWakeup(s: State)
    requires Inv(s)
    ensures s.holders == {} && s.waiting != {} ==> s.sem == 1
    ensures s.sem > 0 ==> s.holders == {} && s.waiting != {}
  {
    if s.sem > 0 {
      assert s.counter > 0;
      assert |s.holders| == 0;
    }
  }

  /**
   * An uncontended `Lock` followed by `Unlock` from counter 0, the loop in the benchmark,
   * restores the state exactly: counter 0 and the semaphore untouched.
   */
  lemma UncontendedPair(s: State, t: ThreadId)
    requires s.counter == 0 && t !in s.holders
    ensures UnlockStep(LockStep(s, t), t) == s
  {
    assert s.holders + {t} - {t} == s.holders;
  }

  /** The lock object; `holders` and `waiting` are ghost bookkeeping. */
  class Benaphore {
    var counter: int
    var sem: nat
    ghost var holders: set<ThreadId>
    ghost var waiting: set<ThreadId>

    ghost function Model(): State
      reads this
    {
      State(counter, sem, holders, waiting)
    }

    ghost predicate Valid()
      reads this
    {
      Inv(Model())
    }

    /** On a valid lock at most one thread holds it, and a semaphore count means none does. */
    lemma Exclusive()
      requires Valid()
      ensures |holders| <= 1
      ensures sem > 0 ==> holders == {} && waiting != {}
    {
      NoLostWakeup(Model());
    }

    constructor ()
      ensures Model() == Init && Valid()
    {
      counter := 0;
      sem := 0;
      holders := {};
      waiting := {};
    }

    /**
     * The atomic increment of `Lock`: adds exactly 1 to the counter and reports whether the
     * caller must wait on the semaphore, which is iff the new counter exceeds 1. The
     * semaphore itself is not touched here.
     */
    method Lock(t: ThreadId) returns (waits: bool)
      modifies this
      ensures counter == old(counter) + 1 && sem == old(sem)
      ensures waits <==> counter > 1
      ensures Model() == LockStep(old(Model()), t)
      ensures old(Valid()) && Allowed(old(Model()), Call.Lock(t)) ==> Valid()
    {
      ghost var s := Model();
      counter := counter + 1;
      waits := counter > 1;
      if waits {
        waiting := waiting + {t};
      } else {
        holders := holders + {t};
      }
      if Inv(s) && Allowed(s, Call.Lock(t)) {
        LockPreservesInv(s, t);
      }
    }

    /** The return from `sem_wait`: takes one count from the semaphore. */
    method Wake(t: ThreadId)
      requires t in waiting && sem > 0
      modifies this
      ensures counter == old(counter) && sem == old(sem) - 1
      ensures Model() == WakeStep(old(Model()), t)
      ensures old(Valid()) ==> Valid()
    {
      ghost var s := Model();
      sem := sem - 1;
      waiting := waiting - {t};
      holders := holders + {t};
      if Inv(s) {
        WakePreservesInv(s, t);
      }
    }

    /**
     * Subtracts exactly 1 from the counter and posts the semaphore once iff the new counter
     * is still positive; otherwise the semaphore is unchanged.
     */
    method Unlock(t: ThreadId) returns (posted: bool)
      modifies this
      ensures counter == old(counter) - 1
      ensures posted <==> counter > 0
      ensures sem == if posted then old(sem) + 1 else old(sem)
      ensures Model() == UnlockStep(old(Model()), t)
      ensures old(Valid()) && t in old(holders) ==> Valid()
    {
      ghost var s := Model();
      counter := counter - 1;
      posted := counter > 0;
      if posted {
        sem := sem + 1;
      }
      holders := holders - {t};
      if Inv(s) && t in s.holders {
        UnlockPreservesInv(s, t);
      }
    }

    /**
     * Succeeds iff the counter was 0, and then sets it to 1; on failure nothing changes.
     * The semaphore is never touched.
     */
    method TryLock(t: ThreadId) returns (ok: bool)
      modifies this
      ensures ok <==> old(counter) == 0
      ensures counter == if ok then 1 else old(counter)
      ensures sem == old(sem)
      ensures !ok ==> Model() == old(Model())
      ensures Model() == TryLockStep(old(Model()), t)
      ensures old(Valid()) && Allowed(old(Model()), Call.TryLock(t)) ==> Valid()
    {
      ghost var s := Model();
      ok := counter == 0;
      if ok {
        counter := 1;
        holders := holders + {t};
      }
      if Inv(s) && Allowed(s, Call.TryLock(t)) {
        TryLockPreservesInv(s, t);
      }
    }
  }
}
