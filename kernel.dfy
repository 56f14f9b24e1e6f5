/**
 * The records shared by the scheduler, the timer and the synchronization primitives:
 * the thread record with its scheduling fields, and the semaphore, lock and condition
 * records.  They refer to one another (a thread lists the locks it holds, a lock names
 * its holder, a semaphore lists its waiting threads), so they live in one module.
 */
module Kernel {
  import opened FixedPoint

  /** The states in a thread's life cycle. */
  datatype ThreadStatus = Running | Ready | Blocked | Dying

  /** Thread priorities. */
  const PRI_MIN: int := 0
  const PRI_DEFAULT: int := 31
  const PRI_MAX: int := 63

  predicate IsPriority(p: int) { PRI_MIN <= p <= PRI_MAX }

  /** A C `unsigned`: a 32-bit count that cannot be negative. */
  type Unsigned = v: int | 0 <= v < 0x1_0000_0000

  /**
   * A kernel thread.  `priority` is the effective priority (raised by donation or set by
   * the MLFQS formula); `ourPriority` is the priority the thread was given.  The list link
   * `elem` is not a field here: membership of the ready list or of a semaphore's waiter
   * list is the thread's presence in that sequence.
   */
  class Thread {
    const tid: int
    var status: ThreadStatus
    var priority: int
    var ourPriority: int
    var heldLocks: seq<Lock>
    var currLock: Lock?
    var nice: Int32
    var recentCpu: Fixed

    constructor (tid: int, status: ThreadStatus, priority: int, nice: Int32, recentCpu: Fixed)
      requires IsPriority(priority)
      ensures this.tid == tid && this.status == status
      ensures this.priority == priority && ourPriority == priority
      ensures heldLocks == [] && currLock == null
      ensures this.nice == nice && this.recentCpu == recentCpu
    {
      this.tid := tid;
      this.status := status;
      this.priority := priority;
      ourPriority := priority;
      heldLocks := [];
      currLock := null;
      this.nice := nice;
      this.recentCpu := recentCpu;
    }
  }

  /** A counting semaphore: an unsigned value and the threads waiting on it. */
  class Semaphore {
    var value: Unsigned
    var waiters: seq<Thread>

    /** sema_init */
    constructor (value: Unsigned)
      ensures this.value == value && waiters == []
    {
      this.value := value;
      waiters := [];
    }
  }

  /**
   * A lock: a binary semaphore, the thread holding it, and `maxP`, the cached highest
   * priority among the threads waiting for it.
   */
  class Lock {
    var holder: Thread?
    const semaphore: Semaphore
    var maxP: int

    /** lock_init: a free lock, with no holder, no waiters and the empty-waiter max_p of 0. */
    constructor ()
      ensures holder == null && fresh(semaphore)
      ensures semaphore.value == 1 && semaphore.waiters == [] && maxP == 0
      ensures IsBinary(this)
    {
      holder := null;
      semaphore := new Semaphore(1);
      maxP := 0;
    }
  }

  /** A lock's semaphore is binary: its value is 0 (held) or 1 (free). */
  ghost predicate IsBinary(l: Lock)
    reads l.semaphore
  {
    l.semaphore.value <= 1
  }

  /**
   * One waiter of a condition variable: a private one-shot semaphore and the thread that
   * waits on it.
   */
  class SemaphoreElem {
    const semaphore: Semaphore
    const waiter: Thread

    constructor (waiter: Thread)
      ensures this.waiter == waiter && fresh(semaphore)
      ensures semaphore.value == 0 && semaphore.waiters == []
    {
      this.waiter := waiter;
      semaphore := new Semaphore(0);
    }
  }

  /** A condition variable: the list of its waiters' semaphore elements. */
  class Condition {
    var waiters: seq<SemaphoreElem>

    /** cond_init */
    constructor ()
      ensures waiters == []
    {
      waiters := [];
    }
  }
}
