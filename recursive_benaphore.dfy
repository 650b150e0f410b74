/**
 * The recursive benaphore of benaphore_mutex/benaphore_recur.cc: the benaphore's counter
 * and semaphore, plus the owning thread and a recursion depth so that the owner may lock
 * again without waiting.
 *
 * As for the plain benaphore, each operation is one atomic step of a named thread, and a
 * contended `Lock` is split into the increment that decides to wait (`Lock`) and the
 * return from `sem_wait` (`Wake`). The set of threads blocked in `sem_wait` is ghost
 * bookkeeping. An owner of 0 (no owner) is `None`.
 */
module RecursiveLock {

  type ThreadId = nat

  datatype Option<T> = None | Some(value: T)

  /** `counter_`, the semaphore's count, `owner_`, `recursion_`, and the blocked threads. */
  datatype State = State(counter: int, sem: nat, owner: Option<ThreadId>, recursion: int, waiting: set<ThreadId>)

  /** The constructor's state: everything 0, no owner. */
  const Init: State := State(0, 0, None, 0, {})

  /**
   * Increment the counter; wait iff the counter exceeds 1 and the caller is not the owner;
   * otherwise become (or stay) the owner one level deeper.
   */
  function LockStep(s: State, t: ThreadId): (r: State)
    ensures r.counter == s.counter + 1 && r.sem == s.sem
    ensures r.owner == Some(t) || r.waiting == s.waiting + {t}
    ensures r.owner == Some(t) ==> r.recursion == s.recursion + 1 && r.waiting == s.waiting
    ensures s.owner == Some(t) || s.counter <= 0 ==> r.owner == Some(t)
    ensures r.owner != Some(t) ==> r.owner == s.owner && r.recursion == s.recursion
  {
    var c := s.counter + 1;
    if c > 1 && s.owner != Some(t) then s.(counter := c, waiting := s.waiting + {t})
    else s.(counter := c, owner := Some(t), recursion := s.recursion + 1)
  }

  /** `sem_wait` returns: take the count, become the owner at depth one more. */
  function WakeStep(s: State, t: ThreadId): (r: State)
    requires s.sem > 0
    ensures r.owner == Some(t) && r.recursion == s.recursion + 1
    ensures r.counter == s.counter && r.sem == s.sem - 1 && r.waiting == s.waiting - {t}
  {
    s.(sem := s.sem - 1, waiting := s.waiting - {t}, owner := Some(t), recursion := s.recursion + 1)
  }

  /**
   * The owner's `Unlock`: one level less; at depth 0 the owner is cleared; the counter
   * drops by one; the semaphore is posted when threads are still interested, the
   * outermost level was released and the semaphore reads 0.
   */
  function UnlockStep(s: State): (r: State)
    ensures r.counter == s.counter - 1 && r.recursion == s.recursion - 1
    ensures r.recursion == 0 ==> r.owner == None
    ensures r.recursion != 0 ==> r.owner == s.owner
    ensures r.sem == s.sem || (r.sem == 1 && s.sem == 0 && r.counter > 0 && r.owner == None)
    ensures r.waiting == s.waiting
  {
    var r := s.recursion - 1;
    var c := s.counter - 1;
    s.(recursion := r,
       owner := if r == 0 then None else s.owner,
       counter := c,
       sem := if c > 0 && r == 0 && s.sem == 0 then s.sem + 1 else s.sem)
  }

  /**
   * The owner always succeeds, one level deeper; anyone else succeeds iff the counter is
   * 0 (compare-and-swap to 1); a failed attempt changes nothing.
   */
  function TryLockStep(s: State, t: ThreadId): (r: State)
    ensures r == s || (r.owner == Some(t) && r.counter == s.counter + 1 && r.recursion == s.recursion + 1)
    ensures s.owner == Some(t) || s.counter == 0 ==> r.owner == Some(t) && r != s
    ensures r.sem == s.sem && r.waiting == s.waiting
  {
    if s.owner == Some(t) then s.(counter := s.counter + 1, recursion := s.recursion + 1)
    else if s.counter == 0 then s.(counter := 1, owner := Some(t), recursion := s.recursion + 1)
    else s
  }

  /** One call of a thread. */
  datatype Call = Lock(t: ThreadId) | Wake(t: ThreadId) | Unlock(t: ThreadId) | TryLock(t: ThreadId)

  /**
   * A call can be issued: a blocked thread makes no call, and its wait can only return
   * when the semaphore has a count.
   */
  predicate Enabled(s: State, c: Call)
  {
    if c.Wake? then c.t in s.waiting && s.sem > 0 else c.t !in s.waiting
  }

  /** The effect of one call; `None` when `Unlock` by a thread other than the owner traps. */
  function Step(s: State, c: Call): Option<State>
    requires Enabled(s, c)
  {
    match c
    case Lock(t) => Some(LockStep(s, t))
    case Wake(t) => Some(WakeStep(s, t))
    case Unlock(t) => if s.owner == Some(t) then Some(UnlockStep(s)) else None
    case TryLock(t) => Some(TryLockStep(s, t))
  }

  /** `cs` can run from `s` to its end: every call can be issued and none traps. */
  predicate Possible(s: State, cs: seq<Call>)
    decreases |cs|
  {
    |cs| == 0 ||
    (Enabled(s, cs[0]) && Step(s, cs[0]).Some? && Possible(Step(s, cs[0]).value, cs[1..]))
  }

  function Run(s: State, cs: seq<Call>): State
    requires Possible(s, cs)
    decreases |cs|
  {
    if |cs| == 0 then s else Run(Step(s, cs[0]).value, cs[1..])
  }

  /**
   * The protocol invariant: a lock has an owner iff its depth is positive; the owner is
   * not blocked; the counter counts the owner's levels plus the blocked threads; and the
   * semaphore holds one count exactly when the lock is free but threads are blocked.
   */
  ghost predicate Inv(s: State)
  {
    s.recursion >= 0 &&
    (s.owner.None? <==> s.recursion == 0) &&
    (s.owner.Some? ==> s.owner.value !in s.waiting) &&
    s.counter == s.recursion + |s.waiting| &&
    s.sem == (if s.owner.None? && s.waiting != {} then 1 else 0)
  }

  lemma InitInv()
    ensures Inv(Init)
  {
  }

  /**
   * `Lock` keeps the invariant, and a caller that does not wait held the lock already or
   * found it free: `Lock` never takes the lock from another owner.
   */
  lemma LockPreservesInv(s: State, t: ThreadId)
    requires Inv(s) && t !in s.waiting
    ensures Inv(LockStep(s, t))
    ensures t !in LockStep(s, t).waiting ==> s.owner == None || s.owner == Some(t)
    ensures t !in LockStep(s, t).waiting ==> s.owner == None ==> s.counter == 0
  {
    var r := LockStep(s, t);
    if r.counter > 1 && s.owner != Some(t) {
      assert t !in s.waiting;
      if s.owner.None? {
        assert s.waiting != {} by {
          assert |s.waiting| >= 1;
        }
      }
    }
  }

  /** A woken thread finds the lock free and becomes its owner at depth 1. */
  lemma WakePreservesInv(s: State, t: ThreadId)
    requires Inv(s) && t in s.waiting && s.sem > 0
    ensures Inv(WakeStep(s, t))
    ensures s.owner == None && WakeStep(s, t).recursion == 1
  {
    assert s.waiting == (s.waiting - {t}) + {t};
  }

  /**
   * The owner's `Unlock` keeps the invariant; under atomic steps the semaphore always reads
   * 0 when the owner unlocks, so the post happens iff threads are blocked and the outermost
   * level was released.
   */
  lemma UnlockPreservesInv(s: State, t: ThreadId)
    requires Inv(s) && s.owner == Some(t)
    ensures Inv(UnlockStep(s))
    ensures s.sem == 0
    ensures UnlockStep(s).sem == (if s.recursion == 1 && s.waiting != {} then 1 else 0)
  {
  }

  /** `TryLock` keeps the invariant and, like `Lock`, never takes the lock from another owner. */
  lemma TryLockPreservesInv(s: State, t: ThreadId)
    requires Inv(s) && t !in s.waiting
    ensures Inv(TryLockStep(s, t))
    ensures TryLockStep(s, t).owner == Some(t) ==> s.owner == None || s.owner == Some(t)
  {
  }

  /** Every enabled call that does not trap keeps the invariant. */
  lemma StepPreservesInv(s: State, c: Call)
    requires Inv(s) && Enabled(s, c) && Step(s, c).Some?
    ensures Inv(Step(s, c).value)
  {
    match c
    case Lock(t) => LockPreservesInv(s, t);
    case Wake(t) => WakePreservesInv(s, t);
    case Unlock(t) => UnlockPreservesInv(s, t);
    case TryLock(t) => TryLockPreservesInv(s, t);
  }

  lemma {:induction false} RunPreservesInv(s: State, cs: seq<Call>)
    requires Inv(s) && Possible(s, cs)
    ensures Inv(Run(s, cs))
    decreases |cs|
  {
    if |cs| > 0 {
      StepPreservesInv(s, cs[0]);
      RunPreservesInv(Step(s, cs[0]).value, cs[1..]);
    }
  }

  /** Calls made by thread `t` alone (it never needs a `Wake`). */
  predicate SoloCalls(cs: seq<Call>, t: ThreadId)
  {
    forall i :: 0 <= i < |cs| ==> cs[i].t == t && !cs[i].Wake?
  }

  /**
   * A single thread running any sequence of calls from the constructor's state never
   * waits and keeps `counter == recursion`, owning the lock iff the depth is positive.
   * The sequence stops being possible only where `Unlock` at depth 0 traps.
   */
  lemma {:induction false} SoloRun(s: State, t: ThreadId, cs: seq<Call>)
    requires Inv(s) && s.waiting == {} && (s.owner == None || s.owner == Some(t))
    requires SoloCalls(cs, t) && Possible(s, cs)
    ensures var r := Run(s, cs);
      r.waiting == {} && r.counter == r.recursion && (r.owner == Some(t) <==> r.recursion > 0) &&
      (r.owner == None || r.owner == Some(t))
    decreases |cs|
  {
    if |cs| > 0 {
      var c := cs[0];
      assert c.t == t && !c.Wake?;
      StepPreservesInv(s, c);
      var n := Step(s, c).value;
      assert n.waiting == {} && (n.owner == None || n.owner == Some(t));
      assert SoloCalls(cs[1..], t) by {
        forall i | 0 <= i < |cs[1..]| ensures cs[1..][i].t == t && !cs[1..][i].Wake? {
          assert cs[1..][i] == cs[i + 1];
        }
      }
      SoloRun(n, t, cs[1..]);
    }
  }

  /** The benchmark loop: `Lock` then `Unlock` by one thread returns the lock to its initial state. */
  lemma LockUnlockRestoresInit(t: ThreadId)
    ensures LockStep(Init, t).owner == Some(t)
    ensures UnlockStep(LockStep(Init, t)) == Init
  {
  }

  /** The lock object; `waiting` is ghost bookkeeping. */
  class RecursiveBenaphore {
    var counter: int
    var sem: nat
    var owner: Option<ThreadId>
    var recursion: int
    ghost var waiting: set<ThreadId>

    ghost function Model(): State
      reads this
    {
      State(counter, sem, owner, recursion, waiting)
    }

    ghost predicate Valid()
      reads this
    {
      Inv(Model())
    }

    constructor ()
      ensures Model() == Init && Valid()
    {
      counter := 0;
      sem := 0;
      owner := None;
      recursion := 0;
      waiting := {};
    }

    /**
     * Adds 1 to the counter; the caller waits iff the new counter exceeds 1 and it is not
     * the owner (an owner re-entering never waits); otherwise it becomes the owner and the
     * depth grows by 1.
     */
    method Lock(t: ThreadId) returns (waits: bool)
      modifies this
      ensures counter == old(counter) + 1 && sem == old(sem)
      ensures waits <==> counter > 1 && old(owner) != Some(t)
      ensures !waits ==> owner == Some(t) && recursion == old(recursion) + 1
      ensures waits ==> owner == old(owner) && recursion == old(recursion)
      ensures Model() == LockStep(old(Model()), t)
      ensures old(Valid()) && t !in old(waiting) ==> Valid()
    {
      ghost var s := Model();
      counter := counter + 1;
      waits := false;
      if counter > 1 {
        if owner != Some(t) {
          waits := true;
        }
      }
      if waits {
        waiting := waiting + {t};
      } else {
        owner := Some(t);
        recursion := recursion + 1;
      }
      if Inv(s) && t !in s.waiting {
        LockPreservesInv(s, t);
      }
    }

    /** The return from `sem_wait` in `Lock`: takes the count, then owns the lock one level deeper. */
    method Wake(t: ThreadId)
      requires t in waiting && sem > 0
      modifies this
      ensures counter == old(counter) && sem == old(sem) - 1
      ensures owner == Some(t) && recursion == old(recursion) + 1
      ensures Model() == WakeStep(old(Model()), t)
      ensures old(Valid()) ==> Valid() && recursion == 1
    {
      ghost var s := Model();
      sem := sem - 1;
      waiting := waiting - {t};
      owner := Some(t);
      recursion := recursion + 1;
      if Inv(s) {
        WakePreservesInv(s, t);
      }
    }

    /**
     * Traps, changing nothing, unless the caller is the owner. Otherwise one level less
     * (the owner is cleared iff the depth reaches 0) and the counter drops by 1; the
     * semaphore is posted at most once, and only when the new counter is positive, the
     * depth reached 0 and the semaphore read 0.
     */
    method Unlock(t: ThreadId) returns (trapped: bool, posted: bool)
      modifies this
      ensures trapped <==> old(owner) != Some(t)
      ensures trapped ==> Model() == old(Model()) && !posted
      ensures !trapped ==> recursion == old(recursion) - 1 && counter == old(counter) - 1
      ensures !trapped ==> (owner == None <==> recursion == 0)
      ensures !trapped ==> (owner != None ==> owner == old(owner))
      ensures posted <==> !trapped && counter > 0 && recursion == 0 && old(sem) == 0
      ensures sem == if posted then old(sem) + 1 else old(sem)
      ensures !trapped ==> Model() == UnlockStep(old(Model()))
      ensures old(Valid()) ==> Valid()
    {
      posted := false;
      if owner != Some(t) {
        trapped := true;
        return;
      }
      trapped := false;
      ghost var s := Model();
      recursion := recursion - 1;
      var recur := recursion;
      if recur == 0 {
        owner := None;
      }
      counter := counter - 1;
      if counter > 0 {
        if recur == 0 {
          var semValue := sem;
          if semValue == 0 {
            sem := sem + 1;
            posted := true;
          }
        }
      }
      if Inv(s) {
        UnlockPreservesInv(s, t);
      }
    }

    /**
     * The owner always succeeds, adding 1 to both the counter and the depth. Anyone else
     * succeeds iff the counter was 0, and then the counter is 1, the caller is the owner
     * and the depth has grown by 1. A failed attempt changes nothing.
     */
    method TryLock(t: ThreadId) returns (ok: bool)
      modifies this
      ensures old(owner) == Some(t) ==> ok && counter == old(counter) + 1
      ensures old(owner) != Some(t) ==> (ok <==> old(counter) == 0)
      ensures old(owner) != Some(t) && ok ==> counter == 1
      ensures ok ==> owner == Some(t) && recursion == old(recursion) + 1
      ensures !ok ==> Model() == old(Model())
      ensures sem == old(sem)
      ensures Model() == TryLockStep(old(Model()), t)
      ensures old(Valid()) && t !in old(waiting) ==> Valid()
    {
      ghost var s := Model();
      if owner == Some(t) {
        counter := counter + 1;
      } else {
        ok := counter == 0;
        if !ok {
          return;
        }
        counter := 1;
        owner := Some(t);
      }
      recursion := recursion + 1;
      ok := true;
      if Inv(s) && t !in s.waiting {
        TryLockPreservesInv(s, t);
      }
    }
  }
}
