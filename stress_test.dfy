/**
 * The bookkeeping of the recursive-benaphore stress test in
 * benaphore_mutex/benaphore_recur_test.cc: per-thread statistics, the loops that move a
 * thread's lock depth towards a random target, the shared counter that only the lock
 * holder increments, and the final check that the per-thread contributions add up to it.
 *
 * One loop iteration of a thread (and its exit) is taken as one atomic step over the
 * shared lock; threads interleave between steps. The random draws of an iteration (the
 * number of work units, the target depth, and whether to use `TryLock`) are parameters.
 */
module StressTest {
  import opened RecursiveLock

  /** `kMaxThreads`: the length of `g_thread_stats`. */
  const MaxThreads: nat := 4

  /** The value of a `ThreadStats`. */
  datatype Stats = Stats(iterations: int, workUnitsComplete: int, amountIncremented: int)

  const ZeroStats: Stats := Stats(0, 0, 0)

  /** Componentwise sum: what `Accumulate` adds. */
  function Plus(a: Stats, b: Stats): Stats
  {
    Stats(a.iterations + b.iterations, a.workUnitsComplete + b.workUnitsComplete,
          a.amountIncremented + b.amountIncremented)
  }

  /** The sum of a sequence of statistics, folded from the left as the final loop does. */
  function SumStats(rs: seq<Stats>): Stats
    decreases |rs|
  {
    if |rs| == 0 then ZeroStats else Plus(SumStats(rs[..|rs| - 1]), rs[|rs| - 1])
  }

  /** `ThreadStats`: the statistics record that the final loop accumulates into. */
  class ThreadStats {
    var iterations: int
    var workUnitsComplete: int
    var amountIncremented: int

    function Value(): Stats
      reads this
    {
      Stats(iterations, workUnitsComplete, amountIncremented)
    }

    /** Every field starts at 0. */
    constructor ()
      ensures Value() == ZeroStats
    {
      iterations := 0;
      workUnitsComplete := 0;
      amountIncremented := 0;
    }

    /** Adds each field of `rhs` to the same field of this record. */
    method Accumulate(rhs: Stats)
      modifies this
      ensures iterations == old(iterations) + rhs.iterations
      ensures workUnitsComplete == old(workUnitsComplete) + rhs.workUnitsComplete
      ensures amountIncremented == old(amountIncremented) + rhs.amountIncremented
      ensures Value() == Plus(old(Value()), rhs)
    {
      iterations := iterations + rhs.iterations;
      workUnitsComplete := workUnitsComplete + rhs.workUnitsComplete;
      amountIncremented := amountIncremented + rhs.amountIncremented;
    }
  }

  /** The locals of one `ThreadProc`: `local_state`, `lock_count`, `last_counter`, and whether it has returned. */
  datatype Worker = Worker(stats: Stats, lockCount: int, lastCounter: int, finished: bool)

  /** The sum of the threads' `amount_incremented`. */
  function Contributed(ws: seq<Worker>): int
    decreases |ws|
  {
    if |ws| == 0 then 0 else Contributed(ws[..|ws| - 1]) + ws[|ws| - 1].stats.amountIncremented
  }

  /** Changing one thread's total changes the sum by the difference. */
  lemma {:induction false} ContributedUpdate(ws: seq<Worker>, i: nat, w: Worker)
    requires i < |ws|
    ensures Contributed(ws[i := w]) == Contributed(ws) - ws[i].stats.amountIncremented + w.stats.amountIncremented
    decreases |ws|
  {
    var n := |ws| - 1;
    if i == n {
      assert ws[i := w][..n] == ws[..n];
    } else {
      assert ws[i := w][..n] == ws[..n][i := w];
      ContributedUpdate(ws[..n], i, w);
    }
  }

  /** Threads that have incremented nothing contribute nothing. */
  lemma {:induction false} ContributedZero(ws: seq<Worker>)
    requires forall i :: 0 <= i < |ws| ==> ws[i].stats.amountIncremented == 0
    ensures Contributed(ws) == 0
    decreases |ws|
  {
    if |ws| > 0 {
      ContributedZero(ws[..|ws| - 1]);
    }
  }

  /** Published statistics that are the threads' own add up to the threads' contributions. */
  lemma {:induction false} PublishedSum(rs: seq<Stats>, ws: seq<Worker>)
    requires |rs| == |ws| && forall i :: 0 <= i < |ws| ==> rs[i] == ws[i].stats
    ensures SumStats(rs).amountIncremented == Contributed(ws)
    decreases |ws|
  {
    if |ws| > 0 {
      PublishedSum(rs[..|rs| - 1], ws[..|ws| - 1]);
    }
  }

  /** Thread `t` holds the shared lock exactly `lc` levels deep (none when `lc` is 0), and nobody waits. */
  ghost predicate Holds(lock: RecursiveBenaphore, t: ThreadId, lc: int)
    reads lock
  {
    lock.Valid() && lock.waiting == {} && 0 <= lc &&
    (lc > 0 <==> lock.owner == Some(t)) && (lc > 0 ==> lock.recursion == lc)
  }

  /** `lock` is owned by a thread other than `t`. */
  predicate OwnedByOther(owner: Option<ThreadId>, t: ThreadId)
  {
    owner.Some? && owner.value != t
  }

  /**
   * The release loop: one `Unlock` per level until the depth is at most `desired`. Every
   * `Unlock` comes from the owner, so none traps.
   */
  method ReleaseTo(lock: RecursiveBenaphore, t: ThreadId, lockCount: int, desired: nat) returns (lc: int)
    requires Holds(lock, t, lockCount)
    modifies lock
    ensures Holds(lock, t, lc)
    ensures lc == if lockCount > desired then desired else lockCount
    ensures lock.owner == old(lock.owner) || (old(lock.owner) == Some(t) && lock.owner == None)
    ensures OwnedByOther(old(lock.owner), t) ==> lock.Model() == old(lock.Model())
  {
    lc := lockCount;
    while lc > desired
      invariant lc <= lockCount && (desired <= lc || lc == lockCount)
      invariant Holds(lock, t, lc)
      invariant lock.owner == old(lock.owner) || (old(lock.owner) == Some(t) && lock.owner == None)
      invariant OwnedByOther(old(lock.owner), t) ==> lock.Model() == old(lock.Model())
      decreases lc
    {
      var trapped, posted := lock.Unlock(t);
      assert !trapped;
      lc := lc - 1;
    }
  }

  /**
   * The acquire loop: `Lock` (or `TryLock`) once per level until the depth reaches
   * `desired`. A blocking `Lock` is only issued when the lock is free or already the
   * caller's, so it never waits, and the loop ends exactly at `desired`; a `TryLock`
   * fails only when another thread owns the lock, and then the loop stops with the depth
   * unchanged.
   */
  method AcquireTo(lock: RecursiveBenaphore, t: ThreadId, lockCount: int, desired: nat, useTryLock: bool)
    returns (lc: int)
    requires Holds(lock, t, lockCount) && lockCount <= desired
    requires useTryLock || lockCount == desired || !OwnedByOther(lock.owner, t)
    modifies lock
    ensures Holds(lock, t, lc)
    ensures lc == if useTryLock && lockCount < desired && OwnedByOther(old(lock.owner), t) then lockCount else desired
    ensures lock.owner == old(lock.owner) || (old(lock.owner) == None && lock.owner == Some(t))
    ensures OwnedByOther(old(lock.owner), t) ==> lock.Model() == old(lock.Model())
  {
    lc := lockCount;
    while lc < desired
      invariant Holds(lock, t, lc) && lockCount <= lc <= desired
      invariant lock.owner == old(lock.owner) || (old(lock.owner) == None && lock.owner == Some(t))
      invariant lc > lockCount ==> lock.owner == Some(t)
      invariant !useTryLock && lc < desired ==> !OwnedByOther(lock.owner, t)
      invariant OwnedByOther(old(lock.owner), t) ==> lock.Model() == old(lock.Model()) && lc == lockCount
      decreases desired - lc
    {
      if useTryLock {
        var ok := lock.TryLock(t);
        if !ok {
          break;
        }
      } else {
        var waits := lock.Lock(t);
        assert !waits;
      }
      lc := lc + 1;
    }
  }

  /**
   * How the threads' depths match the lock: each depth is in [0, 3], a thread has a
   * positive depth iff it owns the lock, and the owner's depth is the lock's recursion.
   */
  ghost predicate Accounted(owner: Option<ThreadId>, recursion: int, ws: seq<Worker>)
  {
    (forall t :: 0 <= t < |ws| ==> 0 <= ws[t].lockCount <= 3) &&
    (forall t :: 0 <= t < |ws| ==> (ws[t].lockCount > 0 <==> owner == Some(t))) &&
    (owner.Some? ==> owner.value < |ws| && recursion == ws[owner.value].lockCount)
  }

  /** No thread's `last_counter` is ahead of the counter, and a holder's equals it. */
  ghost predicate CounterSeen(counter: int, ws: seq<Worker>)
  {
    forall t :: 0 <= t < |ws| ==>
      ws[t].lastCounter <= counter && (ws[t].lockCount > 0 ==> ws[t].lastCounter == counter)
  }

  /** A finished thread holds nothing and has published its statistics. */
  ghost predicate Published(ws: seq<Worker>, rs: seq<Stats>)
    requires |ws| <= |rs|
  {
    forall t :: 0 <= t < |ws| && ws[t].finished ==> ws[t].lockCount == 0 && rs[t] == ws[t].stats
  }

  /**
   * A step of thread `t` that leaves it at depth `w.lockCount` keeps the depths accounted
   * for, provided the lock either kept its state or passed only between "free" and "owned
   * by `t`".
   */
  lemma StepKeepsAccount(ws: seq<Worker>, t: ThreadId, w: Worker,
                         owner0: Option<ThreadId>, recursion0: int, owner: Option<ThreadId>, recursion: int)
    requires Accounted(owner0, recursion0, ws) && t < |ws|
    requires 0 <= w.lockCount <= 3 && (w.lockCount > 0 <==> owner == Some(t))
    requires w.lockCount > 0 ==> recursion == w.lockCount
    requires (owner == owner0 && recursion == recursion0) ||
             ((owner0 == None || owner0 == Some(t)) && (owner == None || owner == Some(t)))
    ensures Accounted(owner, recursion, ws[t := w])
  {
  }

  /**
   * A step of thread `t` that only moves the counter forward, and only while every other
   * thread holds nothing, keeps every thread's view of the counter consistent.
   */
  lemma StepKeepsCounter(counter0: int, ws: seq<Worker>, t: ThreadId, counter: int, w: Worker)
    requires CounterSeen(counter0, ws) && t < |ws|
    requires counter0 <= counter && w.lastCounter <= counter
    requires w.lockCount > 0 ==> w.lastCounter == counter
    requires counter != counter0 ==> forall u :: 0 <= u < |ws| && u != t ==> ws[u].lockCount == 0
    ensures CounterSeen(counter, ws[t := w])
  {
  }

  /**
   * The accounting invariant over the run's values: nobody waits on the lock and the
   * threads' depths match it; the threads' views of the counter are consistent; finished
   * threads have published; and the counter is the sum of all threads' increments.
   */
  ghost predicate Consistent(n: nat, m: State, counter: int, ws: seq<Worker>, rs: seq<Stats>)
  {
    n <= MaxThreads && |ws| == n && |rs| == MaxThreads &&
    Inv(m) && m.waiting == {} &&
    Accounted(m.owner, m.recursion, ws) &&
    CounterSeen(counter, ws) &&
    Published(ws, rs) &&
    counter == Contributed(ws)
  }

  /**
   * A step of thread `t` keeps the invariant when: the thread ends at depth `w.lockCount`
   * matching the lock, the lock kept its owner and depth or passed only between "free"
   * and "owned by `t`", the counter moved only by the thread's own increment and only
   * while it holds the lock, and only the thread's own published entry changed, to its
   * statistics if it finished.
   */
  lemma StepKeepsConsistent(n: nat, m0: State, counter0: int, ws: seq<Worker>, rs: seq<Stats>,
                            t: ThreadId, m: State, counter: int, w: Worker, rs1: seq<Stats>)
    requires Consistent(n, m0, counter0, ws, rs) && t < n
    requires Inv(m) && m.waiting == {}
    requires 0 <= w.lockCount <= 3 && (w.lockCount > 0 <==> m.owner == Some(t))
    requires w.lockCount > 0 ==> m.recursion == w.lockCount
    requires (m.owner == m0.owner && m.recursion == m0.recursion) ||
             ((m0.owner == None || m0.owner == Some(t)) && (m.owner == None || m.owner == Some(t)))
    requires counter - counter0 == w.stats.amountIncremented - ws[t].stats.amountIncremented
    requires counter0 <= counter && w.lastCounter <= counter
    requires w.lockCount > 0 ==> w.lastCounter == counter
    requires counter != counter0 ==> w.lockCount > 0
    requires |rs1| == MaxThreads && forall u :: 0 <= u < n && u != t ==> rs1[u] == rs[u]
    requires w.finished ==> w.lockCount == 0 && rs1[t] == w.stats
    ensures Consistent(n, m, counter, ws[t := w], rs1)
  {
    StepKeepsAccount(ws, t, w, m0.owner, m0.recursion, m.owner, m.recursion);
    StepKeepsCounter(counter0, ws, t, counter, w);
    ContributedUpdate(ws, t, w);
  }

  /**
   * One run of `PerformStressTest`: the shared lock `g_lock`, the shared counter
   * `g_counter`, each thread's locals, and `g_thread_stats`.
   */
  class StressRun {
    const threadCount: nat
    const lock: RecursiveBenaphore
    var counter: int
    var workers: seq<Worker>
    var results: seq<Stats>

    ghost predicate Valid()
      reads this, lock
    {
      Consistent(threadCount, lock.Model(), counter, workers, results)
    }

    /**
     * The start of a run: `g_counter` is reset to 0 and each thread starts with zeroed
     * statistics, no lock held and `last_counter` 0. The lock is the global one, which
     * must be in its initial state; `previous` is what `g_thread_stats` holds from before.
     */
    constructor (lock: RecursiveBenaphore, threadCount: nat, previous: seq<Stats>)
      requires lock.Model() == Init && threadCount <= MaxThreads && |previous| == MaxThreads
      ensures Valid()
      ensures this.lock == lock && this.threadCount == threadCount && counter == 0
      ensures workers == seq(threadCount, _ => Worker(ZeroStats, 0, 0, false)) && results == previous
    {
      this.lock := lock;
      this.threadCount := threadCount;
      counter := 0;
      workers := seq(threadCount, _ => Worker(ZeroStats, 0, 0, false));
      results := previous;
      new;
      ContributedZero(workers);
    }

    /**
     * One pass of the `for (;;)` loop of thread `t` with the given random draws: count the
     * iteration and the work units, check that a holder still sees its own last counter,
     * release down to `desired`, acquire up to it, and, while holding the lock, add
     * `t + 1` to the shared counter and to the thread's own total. Returns whether both
     * `LIGHT_ASSERT`s of the iteration hold; they always do.
     */
    method Iteration(t: ThreadId, workUnits: nat, desired: nat, useTryLock: bool) returns (checked: bool)
      requires Valid() && t < threadCount && !workers[t].finished && desired < 4
      requires useTryLock || desired <= workers[t].lockCount || !OwnedByOther(lock.owner, t)
      modifies this, lock
      ensures Valid() && checked
      ensures var w := workers[t];
        w.lockCount <= desired &&
        w.lockCount == (if useTryLock && OwnedByOther(old(lock.owner), t) then old(workers[t].lockCount) else desired)
      ensures var inc := if workers[t].lockCount > 0 then t + 1 else 0;
        counter == old(counter) + inc &&
        workers[t] == Worker(Plus(old(workers[t].stats), Stats(1, workUnits, inc)), workers[t].lockCount,
                             if inc > 0 then counter else old(workers[t].lastCounter), false)
      ensures workers == old(workers)[t := workers[t]]
      ensures results == old(results)
    {
      var w := workers[t];
      checked := w.lockCount > 0 ==> counter == w.lastCounter;
      ghost var m0 := lock.Model();
      assert Holds(lock, t, w.lockCount);
      var lc := ReleaseTo(lock, t, w.lockCount, desired);
      lc := AcquireTo(lock, t, lc, desired, useTryLock);
      ghost var counter0 := counter;
      var inc := if lc > 0 then t + 1 else 0;
      checked := checked && (lc > 0 ==> counter - w.lastCounter >= 0);
      counter := counter + inc;
      var updated := Worker(Plus(w.stats, Stats(1, workUnits, inc)), lc,
                            if lc > 0 then counter else w.lastCounter, false);
      StepKeepsConsistent(threadCount, m0, counter0, workers, results, t, lock.Model(), counter, updated, results);
      workers := workers[t := updated];
    }

    /**
     * The end of `ThreadProc`: one `Unlock` per held level until the depth is 0, then
     * `g_thread_stats[t]` receives the thread's statistics.
     */
    method Exit(t: ThreadId)
      requires Valid() && t < threadCount && !workers[t].finished
      modifies this, lock
      ensures Valid()
      ensures workers == old(workers)[t := old(workers[t]).(lockCount := 0, finished := true)]
      ensures results == old(results)[t := old(workers[t].stats)]
      ensures counter == old(counter)
      ensures lock.owner != Some(t)
    {
      var w := workers[t];
      ghost var m0, results0 := lock.Model(), results;
      assert Holds(lock, t, w.lockCount);
      var lc := ReleaseTo(lock, t, w.lockCount, 0);
      results := results[t := w.stats];
      var updated := w.(lockCount := lc, finished := true);
      StepKeepsConsistent(threadCount, m0, counter, workers, results0, t, lock.Model(), counter, updated, results);
      workers := workers[t := updated];
    }

    /**
     * The final loop of `PerformStressTest`, after every thread has finished: accumulate
     * each thread's published statistics into a fresh record, and check that the total
     * increment equals the shared counter, which it always does. The shared lock is back
     * in its initial state, ready for the next run.
     */
    method Report() returns (total: ThreadStats, checked: bool)
      requires Valid() && forall t :: 0 <= t < threadCount ==> workers[t].finished
      ensures fresh(total)
      ensures total.Value() == SumStats(results[..threadCount])
      ensures total.amountIncremented == counter && checked
      ensures lock.Model() == Init
    {
      total := new ThreadStats();
      var t := 0;
      while t < threadCount
        invariant t <= threadCount
        invariant total.Value() == SumStats(results[..t])
      {
        assert results[..t + 1][..t] == results[..t];
        total.Accumulate(results[t]);
        t := t + 1;
      }
      PublishedSum(results[..threadCount], workers);
      checked := total.amountIncremented == counter;
      assert lock.owner == None;
    }
  }
}
