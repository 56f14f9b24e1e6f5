/**
 * The priority contracts of the synchronization primitives: the highest-priority waiter
 * of a semaphore, the cached max_p of a lock, and the lock and semaphore-element
 * comparators.
 */
module Synch {
  import opened Kernel
  import opened Threads

  /**
   * The priority lock_update caches in max_p: the highest priority among the waiters,
   * or 0 when nobody waits.
   */
  function MaxWaiterPriority(waiters: seq<Thread>): (m: int)
    reads waiters
    ensures |waiters| == 0 ==> m == 0
    ensures forall w :: w in waiters ==> w.priority <= m
    ensures |waiters| > 0 ==> exists w :: w in waiters && w.priority == m
  {
    if |waiters| == 0 then 0
    else if |waiters| == 1 then waiters[0].priority
    else
      var front := waiters[..|waiters| - 1];
      assert forall w :: w in waiters ==> w in front || w == waiters[|waiters| - 1];
      Max(MaxWaiterPriority(front), waiters[|waiters| - 1].priority)
  }

  /**
   * sema_get_max: a waiter of the semaphore whose priority is at least that of every
   * waiter.  The caller guarantees somebody is waiting.
   */
  method SemaGetMax(sema: Semaphore) returns (t: Thread)
    requires |sema.waiters| > 0
    ensures t in sema.waiters
    ensures forall w :: w in sema.waiters ==> w.priority <= t.priority
  {
    var waiters := sema.waiters;
    t := waiters[0];
    var i := 1;
    while i < |waiters|
      invariant 1 <= i <= |waiters|
      invariant t in waiters[..i]
      invariant forall k :: 0 <= k < i ==> waiters[k].priority <= t.priority
    {
      if t.priority < waiters[i].priority {
        t := waiters[i];
      }
      i := i + 1;
    }
  }

  /** lock_update: set max_p to the highest priority among the lock's waiters, 0 if none. */
  method LockUpdate(lock: Lock)
    modifies lock`maxP
    ensures lock.maxP == MaxWaiterPriority(lock.semaphore.waiters)
    ensures lock.semaphore.waiters == [] ==> lock.maxP == 0
    ensures (forall w :: w in lock.semaphore.waiters ==> IsPriority(w.priority)) ==> IsPriority(lock.maxP)
    ensures old(IsBinary(lock)) ==> IsBinary(lock)
  {
    if |lock.semaphore.waiters| == 0 {
      lock.maxP := 0;
    } else {
      var top := SemaGetMax(lock.semaphore);
      lock.maxP := top.priority;
    }
  }

  /** A waiter list's cached maximum is attained by a waiter whose priority bounds all others. */
  lemma {:induction false} MaxWaiterPriorityIsMaximum(waiters: seq<Thread>, t: Thread)
    requires t in waiters && forall w :: w in waiters ==> w.priority <= t.priority
    ensures MaxWaiterPriority(waiters) == t.priority
  {
  }

  /** compare_locks: true when a's max_p is at most b's. */
  predicate CompareLocks(a: Lock, b: Lock)
    reads a, b
  {
    a.maxP <= b.maxP
  }

  /**
   * compare_sema_elem: true when the priority of a's waiting thread is at most that of
   * b's waiting thread.
   */
  predicate CompareSemaElem(a: SemaphoreElem, b: SemaphoreElem)
    reads a.waiter, b.waiter
  {
    a.waiter.priority <= b.waiter.priority
  }

  /** compare_locks is a total preorder on locks, so it can order a held-lock list. */
  lemma CompareLocksTotalPreorder(a: Lock, b: Lock, c: Lock)
    ensures CompareLocks(a, a)
    ensures CompareLocks(a, b) || CompareLocks(b, a)
    ensures CompareLocks(a, b) && CompareLocks(b, c) ==> CompareLocks(a, c)
    ensures CompareLocks(a, b) && CompareLocks(b, a) <==> a.maxP == b.maxP
  {
  }

  /** compare_sema_elem is a total preorder on waiter elements, so it can order a condition's waiters. */
  lemma CompareSemaElemTotalPreorder(a: SemaphoreElem, b: SemaphoreElem, c: SemaphoreElem)
    ensures CompareSemaElem(a, a)
    ensures CompareSemaElem(a, b) || CompareSemaElem(b, a)
    ensures CompareSemaElem(a, b) && CompareSemaElem(b, c) ==> CompareSemaElem(a, c)
    ensures CompareSemaElem(a, b) && CompareSemaElem(b, a) <==> a.waiter.priority == b.waiter.priority
  {
  }

  /** A lock list in compare_locks order. */
  ghost predicate SortedByMaxP(locks: seq<Lock>)
    reads locks
  {
    forall i, j :: 0 <= i < j < |locks| ==> CompareLocks(locks[i], locks[j])
  }

  /**
   * In a held-lock list kept in compare_locks order, the donation update_thread takes from
   * the locks is the max_p of the last lock.
   */
  lemma {:induction false} SortedLocksMaxAtBack(locks: seq<Lock>)
    requires |locks| > 0 && SortedByMaxP(locks)
    ensures MaxLockPriority(locks) == locks[|locks| - 1].maxP
  {
    if |locks| > 1 {
      var front := locks[..|locks| - 1];
      assert SortedByMaxP(front);
      SortedLocksMaxAtBack(front);
      assert CompareLocks(front[|front| - 1], locks[|locks| - 1]);
    }
  }

  /** A condition's waiter list in compare_sema_elem order. */
  ghost predicate SortedByWaiterPriority(elems: seq<SemaphoreElem>)
    reads set e | e in elems :: e.waiter
  {
    forall i, j :: 0 <= i < j < |elems| ==> CompareSemaElem(elems[i], elems[j])
  }

  /**
   * In a condition's waiter list kept in compare_sema_elem order, the last element's thread
   * has the highest priority, so it is the one to signal.
   */
  lemma SortedElemsMaxAtBack(elems: seq<SemaphoreElem>)
    requires |elems| > 0 && SortedByWaiterPriority(elems)
    ensures forall e :: e in elems ==> e.waiter.priority <= elems[|elems| - 1].waiter.priority
  {
    forall e | e in elems
      ensures e.waiter.priority <= elems[|elems| - 1].waiter.priority
    {
      var i :| 0 <= i < |elems| && elems[i] == e;
      if i < |elems| - 1 {
        assert CompareSemaElem(elems[i], elems[|elems| - 1]);
      }
    }
  }
}
