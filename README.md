# Benaphores, their stress test and MT19937, modelled in Dafny

This project models three sequential cores of a small C++ repository about locking:

- **`Twister`** (`mersenne_twister.dfy`) models the MT19937 generator, which the repository copies into several programs.
  - The generator is a class over a 624-word `array<bv32>` and a read index.
  - The constructor seeds the buffer with the `init_genrand` recurrence.
  - `Integer()` regenerates the buffer in place with three loops once every word has been read, then tempers the next word.
  - The in-place regeneration is proved against the textbook definition: the linear recurrence
    x[k+624] = x[k+397] xor A(upper(x[k]) | lower(x[k+1])) over an unbounded word stream (`Stream`).
  - Hence the k-th word handed out is the tempering of x[624+k] (`Integer`, `Draw`).
- **`SimpleBenaphore`** (`simple_benaphore.dfy`) models the benaphore: an atomic counter of interested threads plus a semaphore used only under contention.
- **`RecursiveLock`** (`recursive_benaphore.dfy`) models the recursive benaphore. It adds an owner and a recursion depth.
- **`StressTest`** (`stress_test.dfy`) models the stress test of the recursive lock:
  - per-thread statistics;
  - the loops that move a thread's lock depth towards a random target;
  - the shared counter that only the lock holder increments;
  - the final check that the per-thread increments add up to the counter.

How the locks are modelled:

- Each lock operation is one atomic step by a named thread.
- A `Lock` that has to wait is split in two:
  - the atomic increment that decides to wait (`Lock`);
  - the later return from `sem_wait` (`Wake`).
- Each lock is a class whose fields are the C++ fields. The semaphore's count is a `nat`. Ghost sets record which threads hold the lock and which are blocked.
- Each method is tied to a pure transition function (`Model() == LockStep(old(Model()), t)`). The protocol invariant is proved about these functions:
  - every step preserves it;
  - mutual exclusion holds;
  - there is no lost wakeup;
  - any possible execution keeps it.

For the recursive lock, the invariant shows something about the `sem_getvalue` guard in `Unlock`: under atomic steps the semaphore always reads 0 when the owner unlocks. The guard therefore never suppresses a post, and `Unlock` posts exactly when threads are blocked and the outermost level is released (`RecursiveLock.UnlockPreservesInv`).

In the stress test, one loop iteration of a thread (and its exit) is one atomic step over the shared `RecursiveBenaphore` object:

- `StressRun.Iteration` and `StressRun.Exit` keep an accounting invariant (`Consistent`).
- `StressRun.Report` proves that the final `LIGHT_ASSERT` holds: the accumulated `amount_incremented` equals `g_counter`. It also proves that the lock is back in its initial state.
- Because a whole iteration is one step, the sum equality does not rest on the lock (see "## Left out"). What the lock does guarantee here is the `LIGHT_ASSERT(g_counter == last_counter)` of a thread that kept the lock (`CounterSeen` inside `Consistent`).

## Model

| member | source | states |
|---|---|---|
| Twister.SeedWord0 | mersenne_twister/mersenne_twister.cc:22 | the `int` seed stored as `unsigned int`: a non-negative seed is itself, a negative one is the word that, added to its magnitude, wraps to 0 (two's complement) |
| Twister.SeededRecurrence | mersenne_twister/mersenne_twister.cc:22-26 | the seeded buffer holds the seed in word 0, and word i is 1812433253·(w xor (w >> 30)) + i mod 2^32 of word i-1 |
| Twister.Mix | mersenne_twister/mersenne_twister.cc:34-35 | one twist step loses nothing it uses: bit 31 of result xor partner is the low bit of the lower word, and with A's row xored back out a left shift gives the upper word's top bit and bits 1..30 of the lower word |
| Twister.MultiplyFormIsMix | mersenne_twister/mersenne_twister.cc:34-35 | the source's `(x & 1) * 0x9908b0df` form of one twist step equals the conditional xor used by the model |
| Twister.TwistWordIsRecurrence | mersenne_twister/mersenne_twister.cc:30-43 | the in-place regeneration of a buffer yields exactly the next 624 words of the linear recurrence started from it |
| Twister.StreamFromWindow | mersenne_twister/mersenne_twister.cc:30-43 | restarting the recurrence from any 624 consecutive words of the stream continues the same stream |
| Twister.TwistAdvancesWindow | mersenne_twister/mersenne_twister.cc:30-43 | regenerating a buffer that holds words b..b+623 of the stream gives words b+624..b+1247 |
| Twister.NextWindow | mersenne_twister/mersenne_twister.cc:30-43 | the same, stated pointwise for the buffer as an array |
| Twister.MersenneTwister.constructor | mersenne_twister/mersenne_twister.cc:21-27 | after construction the buffer is the seeded buffer and the index is 624, so the first `Integer()` regenerates; nothing has been drawn |
| Twister.MersenneTwister.SeedBuffer | mersenne_twister/mersenne_twister.cc:22-26 | the seeding loop fills a fresh 624-word array with the seed recurrence |
| Twister.MersenneTwister.Regenerate | mersenne_twister/mersenne_twister.cc:30-44 | regeneration rewrites every word as the twist of the old buffer, sets the index to 0, and advances the buffer by one window of the stream |
| Twister.MersenneTwister.TwistBuffer | mersenne_twister/mersenne_twister.cc:33-42 | the three loops together rewrite the buffer in place into its regeneration |
| Twister.MersenneTwister.TwistHead | mersenne_twister/mersenne_twister.cc:33-36 | after the first loop, words 0..226 are regenerated and the others untouched |
| Twister.MersenneTwister.TwistTail | mersenne_twister/mersenne_twister.cc:37-42 | the second loop and the last step complete the regeneration |
| Twister.MersenneTwister.TwistMiddle | mersenne_twister/mersenne_twister.cc:37-40 | after the second loop, words 0..622 are regenerated and word 623 is untouched |
| Twister.MersenneTwister.TwistLast | mersenne_twister/mersenne_twister.cc:41-42 | the last step regenerates word 623 |
| Twister.Temper | mersenne_twister/mersenne_twister.cc:46-49 | the four tempering steps form an invertible map: `Untemper` recovers the word, so distinct buffer words give distinct outputs |
| Twister.MersenneTwister.Integer | mersenne_twister/mersenne_twister.cc:29-51 | regenerates iff index ≥ 624; reads exactly one word and advances the index by 1 (to 1 after a regeneration), so it stays in [0, 624]; leaves the buffer unchanged when it does not regenerate; returns the tempering of the word read, which is the tempered next word of the reference stream |
| Twister.Draw | mersenne_twister/mersenne_twister.cc:21-50 | n draws from a fresh generator are the first n outputs determined by the seed alone, so two generators with the same seed agree |
| SimpleBenaphore.LockStep | benaphore_mutex/benaphore.cc:25-29 | the counter grows by 1 and the caller joins the interested threads; it becomes a waiter iff some thread was already interested, otherwise a holder; the semaphore is untouched |
| SimpleBenaphore.WakeStep | benaphore_mutex/benaphore.cc:27 | a returning `sem_wait` takes one count and moves the caller from waiting to holding; the counter is unchanged |
| SimpleBenaphore.UnlockStep | benaphore_mutex/benaphore.cc:30-34 | the counter drops by 1, the caller stops holding, and the semaphore gains one count exactly when the new counter is positive |
| SimpleBenaphore.TryLockStep | benaphore_mutex/benaphore.cc:35-37 | either nothing changes or the counter went from 0 to 1 and the caller holds the lock; from 0 it always succeeds; the semaphore and waiters are untouched |
| SimpleBenaphore.InitInv | benaphore_mutex/benaphore.cc:19-21 | the constructed lock (counter 0, semaphore 0) satisfies the protocol invariant |
| SimpleBenaphore.LockPreservesInv | benaphore_mutex/benaphore.cc:25-29 | `Lock` by a thread neither holding nor waiting keeps the invariant |
| SimpleBenaphore.WakePreservesInv | benaphore_mutex/benaphore.cc:27-27 | a waiter whose `sem_wait` returns keeps the invariant (the lock was free) |
| SimpleBenaphore.UnlockPreservesInv | benaphore_mutex/benaphore.cc:30-34 | `Unlock` by the holder keeps the invariant |
| SimpleBenaphore.TryLockPreservesInv | benaphore_mutex/benaphore.cc:35-37 | `TryLock` by any thread not blocked in `sem_wait` keeps the invariant; a holder's `TryLock` changes nothing |
| SimpleBenaphore.StepPreservesInv | benaphore_mutex/benaphore.cc:25-37 | every allowed call keeps the invariant |
| SimpleBenaphore.RunPreservesInv | benaphore_mutex/benaphore.cc:17-42 | every possible execution keeps the invariant |
| SimpleBenaphore.MutualExclusion | benaphore_mutex/benaphore.cc:25-37 | under the invariant two holders are the same thread |
| SimpleBenaphore.NoLostWakeup | benaphore_mutex/benaphore.cc:26-33 | if nobody holds the lock and some thread waits, the semaphore has its one count; the semaphore never has a count beside a holder |
| SimpleBenaphore.UncontendedPair | benaphore_mutex/benaphore.cc:26-33 | from counter 0, `Lock` then `Unlock` restores the state exactly (counter 0, semaphore untouched) |
| SimpleBenaphore.Benaphore.Exclusive | benaphore_mutex/benaphore.cc:25-37 | on a valid lock object at most one thread holds it, and a semaphore count means nobody holds it while someone waits |
| SimpleBenaphore.Benaphore.constructor | benaphore_mutex/benaphore.cc:19-21 | a new lock has counter 0 and semaphore 0 |
| SimpleBenaphore.Benaphore.Lock | benaphore_mutex/benaphore.cc:25-29 | adds exactly 1 to the counter; waits iff the new counter is > 1; does not touch the semaphore |
| SimpleBenaphore.Benaphore.Wake | benaphore_mutex/benaphore.cc:27-27 | `sem_wait` returns only with a count on the semaphore and takes it |
| SimpleBenaphore.Benaphore.Unlock | benaphore_mutex/benaphore.cc:30-34 | subtracts exactly 1 from the counter; posts once iff the new counter is > 0, otherwise the semaphore is unchanged |
| SimpleBenaphore.Benaphore.TryLock | benaphore_mutex/benaphore.cc:35-37 | succeeds iff the counter was 0 and then sets it to 1; on failure nothing changes; never touches the semaphore |
| RecursiveLock.LockStep | benaphore_mutex/benaphore_recur.cc:28-37 | the counter grows by 1; the caller either owns the lock one level deeper or joins the waiters; the owner and a caller finding the counter at 0 never wait; a waiting caller leaves owner and depth alone |
| RecursiveLock.WakeStep | benaphore_mutex/benaphore_recur.cc:32-36 | a returning `sem_wait` takes one count, leaves the waiters, and makes the caller the owner one level deeper; the counter is unchanged |
| RecursiveLock.UnlockStep | benaphore_mutex/benaphore_recur.cc:38-55 | counter and depth drop by 1; at depth 0 the owner is cleared, otherwise kept; the semaphore only ever goes from 0 to 1, and only when the lock is released with threads still interested |
| RecursiveLock.TryLockStep | benaphore_mutex/benaphore_recur.cc:56-69 | either nothing changes or the caller owns the lock with counter and depth one higher; the owner and a caller finding the counter at 0 always succeed; the semaphore is untouched |
| RecursiveLock.InitInv | benaphore_mutex/benaphore_recur.cc:22-24 | the constructed lock satisfies the protocol invariant |
| RecursiveLock.LockPreservesInv | benaphore_mutex/benaphore_recur.cc:28-37 | `Lock` keeps the invariant and never takes the lock from another owner; a caller that does not wait owned it already or found the counter at 0 |
| RecursiveLock.WakePreservesInv | benaphore_mutex/benaphore_recur.cc:32-36 | a woken waiter finds the lock free and becomes its owner at depth 1 |
| RecursiveLock.UnlockPreservesInv | benaphore_mutex/benaphore_recur.cc:38-55 | the owner's `Unlock` keeps the invariant; the semaphore reads 0 at that moment, so it posts iff the outermost level is released with threads blocked |
| RecursiveLock.TryLockPreservesInv | benaphore_mutex/benaphore_recur.cc:56-69 | `TryLock` keeps the invariant and never takes the lock from another owner |
| RecursiveLock.StepPreservesInv | benaphore_mutex/benaphore_recur.cc:28-69 | every enabled call that does not trap keeps the invariant |
| RecursiveLock.RunPreservesInv | benaphore_mutex/benaphore_recur.cc:20-76 | every possible execution keeps the invariant |
| RecursiveLock.SoloRun | benaphore_mutex/benaphore_recur.cc:22-69 | any call sequence by one thread from the initial state never waits, keeps counter == recursion, and sets the owner iff recursion > 0 |
| RecursiveLock.LockUnlockRestoresInit | benaphore_mutex/benaphore_recur.cc:28-55 | `Lock` then `Unlock` by one thread from the initial state returns to it |
| RecursiveLock.RecursiveBenaphore.constructor | benaphore_mutex/benaphore_recur.cc:22-24 | counter, owner, recursion and semaphore all start at 0 |
| RecursiveLock.RecursiveBenaphore.Lock | benaphore_mutex/benaphore_recur.cc:28-37 | adds 1 to the counter; waits iff the new counter is > 1 and the caller is not the owner; otherwise the caller becomes the owner and recursion grows by 1 |
| RecursiveLock.RecursiveBenaphore.Wake | benaphore_mutex/benaphore_recur.cc:32-36 | after `sem_wait` returns, the caller owns the lock one level deeper and one semaphore count is consumed |
| RecursiveLock.RecursiveBenaphore.Unlock | benaphore_mutex/benaphore_recur.cc:38-55 | traps without change unless the caller owns the lock; otherwise recursion and counter drop by 1 and the owner is cleared iff recursion reaches 0; posts at most once, and only if the new counter is > 0, recursion reached 0 and the semaphore read 0 |
| RecursiveLock.RecursiveBenaphore.TryLock | benaphore_mutex/benaphore_recur.cc:56-69 | the owner always succeeds (counter and recursion +1); anyone else succeeds iff the counter was 0 (then counter 1, owner set, recursion +1); a failure changes nothing |
| StressTest.ThreadStats.constructor | benaphore_mutex/benaphore_recur_test.cc:122-126 | all three fields start at 0 |
| StressTest.ThreadStats.Accumulate | benaphore_mutex/benaphore_recur_test.cc:128-132 | adds each field of the argument componentwise |
| StressTest.ContributedUpdate | benaphore_mutex/benaphore_recur_test.cc:183-188 | raising one thread's `amount_incremented` raises the sum of all threads' increments by the same amount |
| StressTest.ContributedZero | benaphore_mutex/benaphore_recur_test.cc:145-148 | threads that have incremented nothing contribute 0 |
| StressTest.PublishedSum | benaphore_mutex/benaphore_recur_test.cc:233-237 | the folded published statistics give the sum of the threads' increments |
| StressTest.StepKeepsAccount | benaphore_mutex/benaphore_recur_test.cc:160-181 | lock depths stay in [0, 3] and match the lock: positive iff the thread owns it, equal to its recursion |
| StressTest.StepKeepsCounter | benaphore_mutex/benaphore_recur_test.cc:160-188 | no thread's `last_counter` is ahead of `g_counter`, and the holder's equals it |
| StressTest.StepKeepsConsistent | benaphore_mutex/benaphore_recur_test.cc:151-198 | a thread step of the allowed shape keeps the whole accounting invariant |
| StressTest.ReleaseTo | benaphore_mutex/benaphore_recur_test.cc:167-170 | the release loop ends at min(depth, target) with one owner `Unlock` per level, none of which traps |
| StressTest.AcquireTo | benaphore_mutex/benaphore_recur_test.cc:171-181 | the acquire loop never exceeds the target; when the lock is free or the caller's own, a blocking `Lock` never waits and the loop ends exactly at the target; a failing `TryLock` (lock owned by another thread) stops it with the depth unchanged |
| StressTest.StressRun.constructor | benaphore_mutex/benaphore_recur_test.cc:202-205 | a run starts with `g_counter` 0, the lock in its initial state and zeroed per-thread locals |
| StressTest.StressRun.Iteration | benaphore_mutex/benaphore_recur_test.cc:151-188 | both `LIGHT_ASSERT`s hold; the depth ends at most at the target; the holder adds `t + 1` to `g_counter` and to its own total and records `last_counter`; other threads are unchanged; the invariant is kept |
| StressTest.StressRun.Exit | benaphore_mutex/benaphore_recur_test.cc:194-198 | the thread releases every level, publishes its statistics in `g_thread_stats[t]`, and the invariant is kept |
| StressTest.StressRun.Report | benaphore_mutex/benaphore_recur_test.cc:233-237 | after all threads finish, the accumulated `amount_incremented` equals `g_counter` (the final `LIGHT_ASSERT` holds), and the lock is back in its initial state |

## Left out

- Interleaving inside a lock operation is not modelled; each operation is one atomic step. This covers:
  - the gap between the atomic counter update and `sem_wait`;
  - the non-atomic updates of `owner_` and `recursion_`;
  - the check-then-post race on `sem_getvalue`/`sem_post`.
  Under atomic steps the guard is provably redundant; nothing is claimed about real interleavings.
- Thread creation, join, CPU affinity, `usleep` and the unsynchronised `g_done` flag are OS plumbing. A thread's exit (`StressRun.Exit`) may be scheduled at any point.
- Random draws and floats become parameters of `StressRun.Iteration`:
  - the per-thread generator;
  - `fraction()`;
  - the float computations of `work_units` and `desired_lock_count`.
  The generator itself is modelled once, in `Twister`.
- `PoissonInterval` (floating point and `logf`), the timing code, and all `main` functions are not part of this model. They cover clock I/O, console output and float averages.
- `mutex_contention/lock_benchmark.cc` and `memory_reordering/memory_reordering.cc` are not part of this model. Their MT19937 copies are the same code as `Twister`.
- The Python plotting scripts are not part of this model.
- Integer widths:
  - `long counter_`, `long recursion_`, `g_counter` and the statistics fields are unbounded integers. Overflow is not modelled.
  - MT19937 words are exact 32-bit words (`bv32`). The seeding product, formed in `unsigned long` and stored in 32 bits, is arithmetic modulo 2^32.
  - The `int` seed is read as its two's-complement bit pattern (`SeedWord0`).
- Twister.ToWord: converts a natural number to a 32-bit word by counting up from 0. This suits the proofs, but it recurses once per unit, so it is no practical way to run the conversion.
- Thread ids are naturals, and an `owner_` of 0 (no owner) is `None`.
- SimpleBenaphore.Allowed: two misuses are excluded from the possible executions: a holder of the plain benaphore calling `Lock` again (a self-deadlock), and `Unlock` by a thread that does not hold the lock, which `benaphore.cc` does not check.
- SimpleBenaphore.StepPreservesInv: covers every call `Allowed` admits, which includes a holder's `TryLock`; only the two misuses above are outside it.
- SimpleBenaphore.RunPreservesInv: covers every execution made of calls `Allowed` admits; executions containing the two misuses above are outside it.
- StressTest.AcquireTo: requires that a blocking `Lock` is issued only while the lock is free or already the caller's own. A blocking `Lock` while another thread owns the lock would wait in `sem_wait`; that case is not modelled here.
- StressTest.StressRun.Iteration: a blocking `Lock` is scheduled only when the lock is free or already the thread's own. A blocked thread's iteration is taken to run after the owner releases; the blocked phase is not represented.
- StressTest.StressRun.Report: the read-modify-write `g_counter += thread_number + 1` is part of one atomic iteration, so the proved equality of the summed `amount_incremented` and `g_counter` would hold with any lock, even one that lets every thread in. The guarantee that does depend on the lock is `CounterSeen`: a thread that kept the lock sees `g_counter == last_counter`.
- StressTest.StressRun.constructor: requires at most `kMaxThreads` threads. With more threads the `LIGHT_ASSERT(thread_number < kMaxThreads)` at the start of `ThreadProc` traps; that trap path is not modelled.
- StressTest.ThreadStats.Accumulate: takes the argument's value. The source passes a `const` reference, which is never the receiver itself.
- StressTest.ReleaseTo: the number of `Unlock` calls is not counted separately. It is visible as the lock's recursion falling by exactly the number of levels released.
