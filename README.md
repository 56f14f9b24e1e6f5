# Tick-driven scheduling bookkeeping of an instructional kernel

This project is a Dafny model of the timer-driven part of a small Pintos-style kernel scheduler, with proofs about it. It has four parts.

- **Fixed-point arithmetic** (`fixed_point.dfy`, module `FixedPoint`). These are the 17.14 macros, with scale factor 16384.
  - C's 32-bit `int` arithmetic is written out as two's-complement wrap-around (`Wrap32`).
  - C's `/`, which truncates toward zero, is written out as `TruncDiv`.
  - The 64-bit intermediates of fixed-point multiply and divide are proved never to overflow.
  - Every identity states the range in which the 32-bit narrowing keeps its value.
- **The thread and synchronization records** (`kernel.dfy`, module `Kernel`). These are classes for the thread record and its scheduling fields, and for the semaphore, lock, semaphore element and condition.
  - The semaphore's value is a 32-bit unsigned count.
  - A lock's semaphore is created binary.
- **The scheduling and synchronization contracts** (`thread.dfy`, module `Threads`, and `synch.dfy`, module `Synch`). These cover:
  - the priority comparator;
  - the effective priority from held locks (priority donation);
  - the MLFQS priority with its clamping;
  - re-sorting one thread in the ready list;
  - the yield check;
  - the highest-priority semaphore waiter;
  - the cached `max_p` of a lock;
  - the lock and semaphore-element comparators.
- **The timer** (`timer.dfy`, module `Timer`). A `TimerState` object holds:
  - the tick counter;
  - `load_avg`;
  - the list of sleeping threads, kept in deadline order;
  - the table of all threads;
  - the running thread and the idle thread.

  Its methods are `Sleep` (`timer_sleep`), `RealTimeSleep` and `Tick` (`timer_interrupt`). `Tick` is built from the interrupt handler's pieces:
  - charge the running thread one unit of `recent_cpu`;
  - once a second, recompute `load_avg` and then every thread's `recent_cpu`;
  - every fourth tick, recompute priorities;
  - release the due prefix of the sleeping list.

The class invariant `TimerState.Valid` holds in every state the methods produce:
- exactly the current thread is RUNNING;
- the sleeping list is in deadline order, with one record per thread;
- every sleeper is a BLOCKED thread of the table and not the idle thread;
- `load_avg` lies between 0 and the number of threads (in fixed-point form).

Each method states its whole new state in terms of specification functions:
- `DuePrefixLength` (which records a tick releases);
- `CalculateLoadAvg`, `DecayedRecentCpu` and `Charged` (the MLFQS formulas);
- `RunningOrReadyCount` (the load count).

Lemmas relate those functions to what the code promises.

The model follows the code where its behaviour is easy to misread:
- `timer_sleep` does not guard against a non-positive duration. It still inserts the record and blocks; the next tick releases it.
- The timer interrupt runs the MLFQS bookkeeping on every tick, whichever scheduler is selected.
- The every-fourth-tick recompute gives each non-idle thread the value `calculate_priority()` returns. It does not re-sort the ready list.
- `compare_threads` orders by non-decreasing priority, so the highest-priority thread is at the back of a sorted ready list, not the front.

## Model

| member | source | states |
|---|---|---|
| FixedPoint.Wrap32 | src/threads/fixed-point.h:25 | the `(int32_t)` narrowing keeps every value that fits 32 bits and otherwise differs from its input by a multiple of 2^32 |
| FixedPoint.TruncDiv | src/threads/fixed-point.h:9 | C division: q·b lies between 0 and the dividend, and the remainder is smaller than the divisor in absolute value |
| FixedPoint.TruncDivUnique | src/threads/fixed-point.h:9 | those two conditions determine the truncated quotient uniquely |
| FixedPoint.TruncDivNegate | src/threads/fixed-point.h:9 | truncating division commutes with negating the dividend |
| FixedPoint.TruncDivExact | src/threads/fixed-point.h:9 | dividing an exact multiple k·b by b gives k |
| FixedPoint.Wrap32Congruent | src/threads/fixed-point.h:25 | values congruent modulo 2^32 narrow to the same 32-bit value |
| FixedPoint.IntToFixed | src/threads/fixed-point.h:8 | convert_int_to_fixed_point is n·16384 whenever that fits 32 bits |
| FixedPoint.FixedToIntTruncate | src/threads/fixed-point.h:9 | the result times 16384 lies between 0 and x and is within one unit of x |
| FixedPoint.FixedToIntNearest | src/threads/fixed-point.h:10 | when the half-unit offset does not overflow, the result times 16384 is within half a unit of x, with halves rounded away from zero |
| FixedPoint.AddFixed | src/threads/fixed-point.h:13 | the sum, whenever it fits 32 bits |
| FixedPoint.SubFixed | src/threads/fixed-point.h:16 | the difference, whenever it fits 32 bits |
| FixedPoint.AddInt | src/threads/fixed-point.h:19 | x + n·16384, whenever the scaled n and the sum fit |
| FixedPoint.SubInt | src/threads/fixed-point.h:22 | x − n·16384, whenever the scaled n and the difference fit |
| FixedPoint.MulFixed | src/threads/fixed-point.h:25 | when the quotient fits, the result times 16384 approximates x·y from the side of zero within one unit |
| FixedPoint.DivFixed | src/threads/fixed-point.h:28 | for y ≠ 0, when the quotient fits, the result times y approximates x·16384 from the side of zero within \|y\| |
| FixedPoint.MulInt | src/threads/fixed-point.h:31 | the plain product x·n with no rescaling, whenever it fits |
| FixedPoint.DivInt | src/threads/fixed-point.h:34 | the plain truncated quotient x/n with no rescaling; n ≠ 0, and INT32_MIN / −1 is excluded as C leaves it undefined |
| FixedPoint.QuotientFits | src/threads/fixed-point.h:34 | a truncated quotient of 32-bit operands fits 32 bits, except INT32_MIN / −1 |
| FixedPoint.WideIntermediatesFit | src/threads/fixed-point.h:25-28 | the `int64_t` products x·y and x·16384 never overflow |
| FixedPoint.IntToFixedRoundTrip | src/threads/fixed-point.h:6-9 | converting n to fixed point and truncating back gives n whenever n·16384 fits |
| FixedPoint.IntToFixedRoundTripNearest | src/threads/fixed-point.h:8-10 | converting n and rounding back to nearest also gives n |
| FixedPoint.TruncateOdd | src/threads/fixed-point.h:9 | truncating −x gives the negation of truncating x |
| FixedPoint.NearestOdd | src/threads/fixed-point.h:10 | rounding to nearest is odd-symmetric: round(−x) = −round(x) |
| FixedPoint.NearestWithinHalfUnit | src/threads/fixed-point.h:10 | the rounded value times 16384 is at most half a unit from x |
| FixedPoint.SubIntUndoesAddInt | src/threads/fixed-point.h:19-22 | subtracting n units undoes adding n units: for the C program wherever n·16384 and the sum fit 32 bits; beyond that range, where C's signed overflow is undefined, only for the model's two's-complement wrap-around |
| FixedPoint.AddIntIsAddFixed | src/threads/fixed-point.h:13-22 | adding or subtracting an integer is adding or subtracting its fixed-point image |
| FixedPoint.MulByOne | src/threads/fixed-point.h:25 | multiplying by the fixed-point 1 leaves every x unchanged |
| FixedPoint.DivByOne | src/threads/fixed-point.h:28 | dividing by the fixed-point 1 leaves every x unchanged |
| FixedPoint.MulCommutes | src/threads/fixed-point.h:25 | fixed-point multiplication is commutative |
| Kernel.Thread.constructor | src/threads/thread.h:84-111 | a new thread record, given a priority in [PRI_MIN, PRI_MAX], has the given status, priority (also its original priority), nice and recent_cpu, holds no locks and waits on none |
| Kernel.Semaphore.constructor | src/threads/synch.h:8-14 | sema_init: the given unsigned value and no waiters |
| Kernel.Lock.constructor | src/threads/synch.h:21-29 | lock_init: no holder, a fresh binary semaphore with value 1 and no waiters, max_p 0 |
| Kernel.SemaphoreElem.constructor | src/threads/synch.h:90-102 | a condition waiter: the waiting thread and a fresh semaphore with value 0 |
| Kernel.Condition.constructor | src/threads/synch.h:36-41 | cond_init: no waiters |
| Threads.CompareThreads | src/threads/thread.h:227-239 | compare_threads: true exactly when a's priority is at most b's (defined here, properties in the next row) |
| Threads.CompareThreadsTotalPreorder | src/threads/thread.h:227-239 | compare_threads is reflexive, total and transitive; both directions hold exactly when the priorities are equal |
| Threads.MaxLockPriority | src/threads/thread.h:181-191 | the highest max_p among the held locks: an upper bound attained by one of them |
| Threads.EffectivePriority | src/threads/thread.h:181-191 | the priority update_thread gives: the original priority with no locks, otherwise the larger of it and the highest held max_p (defined here, characterised in the next row) |
| Threads.EffectivePriorityIsLeastBound | src/threads/thread.h:181-191 | the effective priority is the least value at least the original priority and every held lock's max_p, and it equals one of them |
| Threads.EffectivePriorityInRange | src/threads/thread.h:22-25 | the effective priority stays in [PRI_MIN, PRI_MAX] whenever the original priority and every held max_p do |
| Threads.UpdateThread | src/threads/thread.h:181-191 | update_thread sets the priority to the effective priority; with no held locks, to the original priority; in range whenever its inputs are |
| Threads.Clamp | src/threads/thread.h:215-225 | the result is in [PRI_MIN, PRI_MAX]: a priority in range is kept, one below becomes PRI_MIN, one above becomes PRI_MAX |
| Threads.MlfqsPriority | src/threads/thread.h:215-225 | PRI_MAX − recent_cpu/4 − 2·nice, rounded, always lies in [PRI_MIN, PRI_MAX] |
| Threads.MlfqsPriorityRecentCpuAntitone | src/threads/thread.h:215-225 | more recent CPU use never gives a higher MLFQS priority, for every nice |
| Threads.MlfqsPriorityNiceAntitone | src/threads/thread.h:215-225 | a larger nice never gives a higher MLFQS priority |
| Threads.UpdatePriorityMlfqs | src/threads/thread.h:215-225 | thread_update_priority_mlfqs leaves the formula's value in the thread, always within the priority range |
| Threads.RemoveKeepsOrder | src/threads/thread.h:193-201 | removing t from a list ordered apart from t leaves an ordered, duplicate-free list without t, with one copy of t fewer |
| Threads.InsertKeepsOrder | src/threads/thread.h:193-201 | inserting t before the first thread of at least its priority keeps the list ordered and duplicate-free, with one copy of t more |
| Threads.IndexOf | src/threads/thread.h:193-201 | the position of t on the list rearrange_ready_list takes it off |
| Threads.InsertPosition | src/threads/thread.h:193-201 | the position where `list_insert_ordered` with `compare_threads` puts t (the re-insert is assumed to use them): every thread before it has a strictly lower priority than t, and the one at it, if any, at least t's, so t goes in front of threads of equal priority |
| Threads.Scheduler.constructor | src/threads/thread.h:77-82 | an empty ready list with a RUNNING current thread satisfies the ready-list invariant |
| Threads.Scheduler.RearrangeReadyList | src/threads/thread.h:193-201 | rearrange_ready_list: t is taken from its position i and inserted back at the position j of the remaining list where `list_insert_ordered` with `compare_threads` puts it (assumed; the header promises a position by priority only), in front of threads of equal priority, so the other threads keep their relative order; the ready-list invariant holds afterwards, the list is a permutation of the old one, and t is on it exactly once |
| Threads.Scheduler.CheckThreadYield | src/threads/thread.h:148-155 | check_thread_yield yields if and only if some ready thread has a strictly higher priority than the running one |
| Threads.ElemOnOneList | src/threads/thread.h:77-82 | a thread is never both on the ready list and on a semaphore's waiter list |
| Synch.MaxWaiterPriority | src/threads/synch.h:65-74 | the highest waiter priority, 0 with no waiters: an upper bound attained by a waiter |
| Synch.SemaGetMax | src/threads/synch.h:53-63 | sema_get_max, for a non-empty waiter list, returns a waiter whose priority is at least every waiter's |
| Synch.LockUpdate | src/threads/synch.h:65-74 | lock_update sets max_p to the highest waiter priority, 0 when nobody waits, in [PRI_MIN, PRI_MAX] whenever every waiter's priority is, and keeps the lock's semaphore binary |
| Synch.MaxWaiterPriorityIsMaximum | src/threads/synch.h:53-74 | a waiter whose priority bounds all waiters has exactly the cached maximum |
| Synch.CompareLocks | src/threads/synch.h:76-88 | compare_locks: true exactly when a's max_p is at most b's (defined here, properties in the next row) |
| Synch.CompareLocksTotalPreorder | src/threads/synch.h:76-88 | compare_locks is reflexive, total and transitive; both directions hold exactly when the max_p values are equal |
| Synch.CompareSemaElem | src/threads/synch.h:90-102 | compare_sema_elem: true exactly when a's waiting thread has at most b's priority (defined here, properties in the next row) |
| Synch.CompareSemaElemTotalPreorder | src/threads/synch.h:90-102 | compare_sema_elem is reflexive, total and transitive; both directions hold exactly when the waiters' priorities are equal |
| Synch.SortedLocksMaxAtBack | src/threads/synch.h:76-88 | in a held-lock list sorted by compare_locks, the last lock's max_p is the donation update_thread takes |
| Synch.SortedElemsMaxAtBack | src/threads/synch.h:90-102 | in a condition's waiter list sorted by compare_sema_elem, the last waiter has the highest priority |
| Timer.OrderSleepingThreads | src/devices/timer.c:115-121 | order_sleeping_threads: a's deadline is strictly earlier than b's (defined here, properties in the next row) |
| Timer.OrderSleepingThreadsIsStrict | src/devices/timer.c:115-121 | order_sleeping_threads is a strict order (irreflexive, asymmetric, transitive); records with equal deadlines are unordered both ways |
| Timer.SplitSleepingList | src/devices/timer.c:246-259 | after removing a prefix, the rest of an ordered list stays ordered with one record per thread, and no removed thread remains |
| Timer.DuePrefixLength | src/devices/timer.c:246-259 | the number of leading records whose deadline has come: all of them are due and the next one, if any, is not |
| Timer.DuePrefixLengthUnique | src/devices/timer.c:246-259 | any prefix that is due and stops at the end or at a record not due is that length |
| Timer.SortedRestNotDue | src/devices/timer.c:250-257 | in a deadline-ordered list, every record after the due prefix has a deadline later than now |
| Timer.InsertKeepsDeadlineOrder | src/devices/timer.c:140-141 | inserting a record before the first one released strictly after it keeps the list ordered with one record per thread, and adds exactly its thread |
| Timer.RealTimeSleepTicks | src/devices/timer.c:387 | num·TIMER_FREQ/denom in C arithmetic: rounded down for a non-negative duration, never positive for a non-positive one |
| Timer.CalculateLoadAvg | src/devices/timer.c:306-324 | calculate_load_avg1: (59/60)·load_avg + (1/60)·count with each coefficient a fixed-point quotient (defined here; coefficients and range in the next rows) |
| Timer.LoadAvgCoefficients | src/devices/timer.c:306-317 | the fixed-point coefficients 59/60 and 1/60 are 16110 and 273 |
| Timer.LoadAvgStaysInRange | src/devices/timer.c:306-324 | with at most n threads counted, load_avg stays between 0 and n units across a recompute |
| Timer.DoubledLoadAvg | src/devices/timer.c:334-335 | 2·load_avg and 2·load_avg + 1 are computed exactly, with no wrap-around |
| Timer.DecayCoefficient | src/devices/timer.c:333-336 | the decay coefficient is 2·load_avg/(2·load_avg + 1) rounded down to a fixed-point number, and lies in [0, 1) |
| Timer.DecayQuotientBelowOne | src/devices/timer.c:336 | the truncated quotient of 2·load_avg·16384 by 2·load_avg + 16384 is its floor and lies in [0, 16384) |
| Timer.DecayedRecentCpu | src/devices/timer.c:333-339 | the recent_cpu recompute: decay coefficient times recent_cpu, plus nice units (defined here; decay property in the next row) |
| Timer.RecentCpuDecays | src/devices/timer.c:327-341 | the decayed recent_cpu is never larger in magnitude than before nice is added |
| Timer.Charged | src/devices/timer.c:229-232 | the per-tick charge: the running thread, unless idle, gains one unit of recent_cpu and every other thread keeps its own (defined here, used by MlfqsTick and Tick) |
| Timer.CountsTowardLoad | src/devices/timer.c:298-305 | check_thread_status1's test: not the idle thread, and RUNNING or READY (defined here, counted in the next rows) |
| Timer.RunningOrReadyCount | src/devices/timer.c:298-305 | the count of non-idle RUNNING or READY threads is at most the table size |
| Timer.TimerState.constructor | src/devices/timer.c:36-40 | at boot: tick 0, load_avg 0, nobody asleep, and the invariant holds |
| Timer.TimerState.TimerElapsed | src/devices/timer.c:108-112 | timer_elapsed(then) added to then gives the current tick count |
| Timer.TimerState.Sleep | src/devices/timer.c:125-148 | timer_sleep inserts exactly the record (caller, start + n), keeping deadline order, where start is a tick count read no later than now; blocks the caller; the next thread runs; the invariant holds and the clock is unchanged |
| Timer.TimerState.CountRunningOrReadyThreads | src/devices/timer.c:285-305 | count_running_or_ready_threads1 returns the number of non-idle RUNNING or READY threads |
| Timer.TimerState.UpdateLoadAvg | src/devices/timer.c:278-282 | load_avg becomes the recompute of the old load_avg with the current count, and stays in range |
| Timer.TimerState.UpdateRecentCpuForAllThreads | src/devices/timer.c:327-341 | every thread's recent_cpu becomes decay·recent_cpu + nice, using the current load_avg |
| Timer.TimerState.UpdatePriorityForAllThreads | src/devices/timer.c:263-274 | every non-idle thread gets the calculated priority; the idle thread keeps its own |
| Timer.TimerState.ReleaseDueSleepers | src/devices/timer.c:246-259 | the scan removes exactly the due prefix, makes exactly those threads READY, and leaves the rest of the list and every other status unchanged |
| Timer.TimerState.WakeSleepingThreads | src/devices/timer.c:246-259 | the wake-up scan keeps the timer invariant, with the due prefix removed and its threads READY |
| Timer.TimerState.UpdateOncePerSecond | src/devices/timer.c:234-238 | load_avg is recomputed first, then every recent_cpu with the new load_avg |
| Timer.TimerState.RecomputePeriodic | src/devices/timer.c:234-243 | the load_avg and recent_cpu recompute happens only on ticks divisible by the frequency, and the priority recompute only every fourth tick and never for the idle thread |
| Timer.TimerState.MlfqsTick | src/devices/timer.c:224-243 | the tick advances by one; the running thread, unless idle, is charged one unit before the periodic recomputes; no other thread is charged |
| Timer.TimerState.Tick | src/devices/timer.c:221-261 | timer_interrupt: ticks + 1; the MLFQS state as above; exactly the due prefix of the sleeping list is released and made READY; the invariant is kept |
| Timer.TimerState.RealTimeSleep | src/devices/timer.c:378-403 | real_time_sleep sleeps the converted number of ticks when it is positive; otherwise the sleeping list, the running thread and both threads' states are as they were; the clock is unchanged either way |

## Left out

- `timer_init`, `timer_calibrate`, `too_many_loops`, `busy_wait`, `real_time_delay`, the `*delay` wrappers and `timer_print_stats`: hardware programming, timing loops and printing.
- The `timer_msleep`/`usleep`/`nsleep` wrappers: each is a single call of `real_time_sleep` with a constant denominator, and `RealTimeSleep` takes that denominator as a parameter.
- Interrupt masking and `sleeping_threads_semaphore`: the interrupt handler and the list update in `timer_sleep` each run as one atomic step, as the masking makes them. `timer_sleep` reads its start tick before masking, so ticks may pass before the insert; `Sleep` takes that start tick as a parameter no later than the current tick. The semaphore is never used on the sleep and wake path.
- `thread_tick`, `thread_block`/`thread_unblock` internals and the context switch are not part of this model. Blocking and unblocking are status changes on the thread table.
- Timer.TimerState.Sleep: the scheduler's choice of the next thread is a parameter `next`, which must be READY or the idle thread.
- Timer.TimerState.Sleep: the idle thread never calls it (`current != idle` is required).
- Timer.TimerState.Tick and Timer.TimerState.UpdatePriorityForAllThreads: the value of `calculate_priority()` is a parameter, and every non-idle thread receives that same value. Its body is not part of this model. It takes no argument and, as far as this model can see, reads nothing the loop changes.
- `thread.c` and `synch.c` are not part of this model. The thread and synchronization members model the contracts their headers document.
- Threads.MlfqsPriority: computes PRI_MAX − round(recent_cpu / 4) − 2·nice, rounding only the recent_cpu term to the nearest integer, because the body of `thread_update_priority_mlfqs` is not part of this model. Rounding the whole fixed-point value instead differs at exact halves: recent_cpu of 2 units gives 62 here and 63 that way.
- Not modelled, because their bodies are not part of this model:
  - the `sema_down`/`sema_up`, `lock_acquire`/`lock_release` and `cond_*` operations;
  - the transitive walk of priority donation.
- Timer.TimerState.Sleep: states that the record is inserted at some position that keeps deadline order, not where it goes among records with the same deadline. Its loop stops at the first record released strictly later, as `order_sleeping_threads` makes `list_insert_ordered` do, so it places the record after them, but the contract does not promise that.
- Threads.Scheduler.RearrangeReadyList: assumes that `rearrange_ready_list` removes t and re-inserts it with the list library's `list_insert_ordered` and `compare_threads`, which puts t in front of the first thread whose priority is at least t's, and so in front of threads of equal priority. Its body and the list library are not part of this model; the header promises only a position based on priority.
- Arithmetic ranges:
  - `ticks` is an unbounded integer; the source's 64-bit counter cannot overflow in practice.
  - Timer.TimerState.Sleep and Timer.TimerState.RealTimeSleep: the 64-bit sums and products `start + ticks` and `num * TIMER_FREQ` are computed without a 64-bit bound; a duration near the 64-bit limit, where C overflows, is not modelled.
  - The thread table is capped at 65535 threads (`MAX_THREADS`). Up to that size, load_avg stays within its thread count in fixed-point form, so 2·load_avg + 1 fits 32 bits.
- FixedPoint.IntToFixedRoundTripNearest: excludes n = −131072, whose fixed-point image is INT32_MIN. Subtracting the half unit from it overflows in C.
- Signed overflow in the fixed-point macros is undefined in C. The model gives it two's-complement wrap-around, and every identity except FixedPoint.SubIntUndoesAddInt is stated only where no overflow happens.
- FixedPoint.SubIntUndoesAddInt: stated for every x and n; beyond the range where n·16384 and the sum fit 32 bits it is a property of the two's-complement model only, since the C program's overflow is undefined there.
- The semaphore value is modelled as a 32-bit unsigned count that is never negative. Its wrap-around under `sema_up` is not modelled, because `sema_up` is not part of this model.
- Thread memory layout (stack, magic, page directory), the `barrier()` fence, names and tids beyond the record's fields are not modelled.
