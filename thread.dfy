/**
 * The scheduling contracts declared with the thread record: the priority comparator,
 * the effective-priority recompute from held locks (priority donation), the MLFQS
 * priority recompute, the re-sorting of the ready list and the yield check.
 */
module Threads {
  import opened FixedPoint
  import opened Kernel

  function Max(a: int, b: int): int { if a < b then b else a }

  // ---------------------------------------------------------------------------
  // compare_threads
  // ---------------------------------------------------------------------------

  /** compare_threads: true when a's priority is at most b's. */
  predicate CompareThreads(a: Thread, b: Thread)
    reads a, b
  {
    a.priority <= b.priority
  }

  /** compare_threads is a total preorder on threads, so it can order a list. */
  lemma CompareThreadsTotalPreorder(a: Thread, b: Thread, c: Thread)
    ensures CompareThreads(a, a)
    ensures CompareThreads(a, b) || CompareThreads(b, a)
    ensures CompareThreads(a, b) && CompareThreads(b, c) ==> CompareThreads(a, c)
    ensures CompareThreads(a, b) && CompareThreads(b, a) <==> a.priority == b.priority
  {
  }

  /** A thread list in the order compare_threads gives: priorities never decrease. */
  ghost predicate SortedByPriority(s: seq<Thread>)
    reads s
  {
    forall i, j :: 0 <= i < j < |s| ==> CompareThreads(s[i], s[j])
  }

  /** No thread is on the list twice. */
  ghost predicate Distinct(s: seq<Thread>)
  {
    forall i, j :: 0 <= i < j < |s| ==> s[i] != s[j]
  }

  // ---------------------------------------------------------------------------
  // update_thread: effective priority from held locks
  // ---------------------------------------------------------------------------

  /** The highest max_p among a non-empty list of locks. */
  function MaxLockPriority(locks: seq<Lock>): (m: int)
    requires |locks| > 0
    reads locks
    ensures forall l :: l in locks ==> l.maxP <= m
    ensures exists l :: l in locks && l.maxP == m
  {
    if |locks| == 1 then locks[0].maxP
    else
      var front := locks[..|locks| - 1];
      assert forall l :: l in locks ==> l in front || l == locks[|locks| - 1];
      Max(MaxLockPriority(front), locks[|locks| - 1].maxP)
  }

  /**
   * The priority update_thread gives a thread: its original priority when it holds no
   * lock, otherwise the larger of that and the highest max_p of the locks it holds.
   */
  ghost function EffectivePriority(t: Thread): int
    reads t, t.heldLocks
  {
    if |t.heldLocks| == 0 then t.ourPriority else Max(t.ourPriority, MaxLockPriority(t.heldLocks))
  }

  /**
   * The effective priority is the least value that is at least the original priority and
   * at least every held lock's max_p.
   */
  lemma EffectivePriorityIsLeastBound(t: Thread, p: int)
    ensures EffectivePriority(t) >= t.ourPriority
    ensures forall l :: l in t.heldLocks ==> EffectivePriority(t) >= l.maxP
    ensures p >= t.ourPriority && (forall l :: l in t.heldLocks ==> p >= l.maxP) ==> p >= EffectivePriority(t)
    ensures EffectivePriority(t) == t.ourPriority || exists l :: l in t.heldLocks && l.maxP == EffectivePriority(t)
  {
  }

  /** update_thread: recompute t's effective priority from the locks it holds. */
  method UpdateThread(t: Thread)
    modifies t`priority
    ensures t.priority == EffectivePriority(t)
    ensures |t.heldLocks| == 0 ==> t.priority == t.ourPriority
    ensures IsPriority(t.ourPriority) && (forall l :: l in t.heldLocks ==> IsPriority(l.maxP)) ==> IsPriority(t.priority)
  {
    var locks := t.heldLocks;
    var p := t.ourPriority;
    var i := 0;
    while i < |locks|
      invariant 0 <= i <= |locks|
      invariant p == if i == 0 then t.ourPriority else Max(t.ourPriority, MaxLockPriority(locks[..i]))
    {
      assert locks[..i + 1][..i] == locks[..i];
      p := Max(p, locks[i].maxP);
      i := i + 1;
    }
    assert locks[..i] == locks;
    t.priority := p;
    EffectivePriorityInRange(t);
  }

  /** With the original priority and every held lock's max_p in range, the effective priority is too. */
  lemma EffectivePriorityInRange(t: Thread)
    ensures IsPriority(t.ourPriority) && (forall l :: l in t.heldLocks ==> IsPriority(l.maxP)) ==>
      IsPriority(EffectivePriority(t))
  {
    if |t.heldLocks| > 0 {
      var m := MaxLockPriority(t.heldLocks);
      assert exists l :: l in t.heldLocks && l.maxP == m;
    }
  }

  // ---------------------------------------------------------------------------
  // thread_update_priority_mlfqs
  // ---------------------------------------------------------------------------

  function Clamp(p: int): (r: int)
    ensures IsPriority(r)
    ensures IsPriority(p) ==> r == p
    ensures p < PRI_MIN ==> r == PRI_MIN
    ensures p > PRI_MAX ==> r == PRI_MAX
  {
    if p < PRI_MIN then PRI_MIN else if p > PRI_MAX then PRI_MAX else p
  }

  /**
   * The MLFQS priority: PRI_MAX - recent_cpu / 4 - nice * 2, rounded to the nearest
   * integer and bounded by PRI_MIN and PRI_MAX.
   */
  function MlfqsPriority(recentCpu: Fixed, nice: Int32): (p: int)
    ensures IsPriority(p)
  {
    Clamp(PRI_MAX - FixedToIntNearest(DivInt(recentCpu, 4)) - nice * 2)
  }

  /** More recent CPU use never gives a higher MLFQS priority. */
  lemma MlfqsPriorityRecentCpuAntitone(recentCpu1: Fixed, recentCpu2: Fixed, nice: Int32)
    requires recentCpu1 <= recentCpu2
    ensures MlfqsPriority(recentCpu2, nice) <= MlfqsPriority(recentCpu1, nice)
  {
    var q1, q2 := DivInt(recentCpu1, 4), DivInt(recentCpu2, 4);
    assert q1 <= q2;
    assert FixedToIntNearest(q1) <= FixedToIntNearest(q2);
  }

  /** A nicer thread never gets a higher MLFQS priority. */
  lemma MlfqsPriorityNiceAntitone(recentCpu: Fixed, nice1: Int32, nice2: Int32)
    requires nice1 <= nice2
    ensures MlfqsPriority(recentCpu, nice2) <= MlfqsPriority(recentCpu, nice1)
  {
  }

  /** thread_update_priority_mlfqs: set t's priority by the MLFQS formula. */
  method UpdatePriorityMlfqs(t: Thread)
    modifies t`priority
    ensures t.priority == MlfqsPriority(t.recentCpu, t.nice)
    ensures IsPriority(t.priority)
  {
    var raw := PRI_MAX - FixedToIntNearest(DivInt(t.recentCpu, 4)) - t.nice * 2;
    if raw > PRI_MAX {
      t.priority := PRI_MAX;
    } else if raw < PRI_MIN {
      t.priority := PRI_MIN;
    } else {
      t.priority := raw;
    }
  }

  // ---------------------------------------------------------------------------
  // The ready list: rearrange_ready_list and check_thread_yield
  // ---------------------------------------------------------------------------

  /** Every pair of elements other than t is in compare_threads order. */
  ghost predicate SortedExcept(s: seq<Thread>, t: Thread)
    reads s
  {
    forall i, j :: 0 <= i < j < |s| && s[i] != t && s[j] != t ==> CompareThreads(s[i], s[j])
  }

  /** Taking the only copy of t off a list sorted apart from t leaves a sorted list without t. */
  lemma RemoveKeepsOrder(s: seq<Thread>, i: int, t: Thread)
    requires 0 <= i < |s| && s[i] == t
    requires Distinct(s) && SortedExcept(s, t)
    ensures var rest := s[..i] + s[i + 1..];
      && SortedByPriority(rest) && Distinct(rest) && t !in rest
      && multiset(s) == multiset(rest) + multiset{t}
  {
    var rest := s[..i] + s[i + 1..];
    assert forall k :: 0 <= k < |rest| ==> rest[k] == s[(if k < i then k else k + 1)];
    assert s == s[..i] + [t] + s[i + 1..];
  }

  /**
   * Inserting t into a sorted list in front of the first element whose priority is at
   * least t's keeps the list sorted.
   */
  lemma InsertKeepsOrder(rest: seq<Thread>, j: int, t: Thread)
    requires 0 <= j <= |rest|
    requires SortedByPriority(rest) && Distinct(rest) && t !in rest
    requires forall k :: 0 <= k < j ==> rest[k].priority < t.priority
    requires j < |rest| ==> t.priority <= rest[j].priority
    ensures var s := rest[..j] + [t] + rest[j..];
      && SortedByPriority(s) && Distinct(s)
      && multiset(s) == multiset(rest) + multiset{t}
  {
    var s := rest[..j] + [t] + rest[j..];
    forall a, b | 0 <= a < b < |s|
      ensures CompareThreads(s[a], s[b]) && s[a] != s[b]
    {
      InsertedAt(rest, j, t, a);
      InsertedAt(rest, j, t, b);
      if b > j && a <= j && j < |rest| {
        assert CompareThreads(rest[j], rest[b - 1]);
      }
    }
    assert rest == rest[..j] + rest[j..];
  }

  /** Where each element of rest[..j] + [t] + rest[j..] comes from. */
  lemma InsertedAt(rest: seq<Thread>, j: int, t: Thread, k: int)
    requires 0 <= j <= |rest| && 0 <= k <= |rest|
    ensures (rest[..j] + [t] + rest[j..])[k] == (if k < j then rest[k] else if k == j then t else rest[k - 1])
  {
  }

  /** Where t stands in s: the thread rearrange_ready_list takes off the list. */
  method IndexOf(s: seq<Thread>, t: Thread) returns (pos: nat)
    requires t in s
    ensures pos < |s| && s[pos] == t
  {
    pos := 0;
    while s[pos] != t
      invariant 0 <= pos < |s|
      invariant t in s[pos..]
      decreases |s| - pos
    {
      pos := pos + 1;
    }
  }

  /**
   * The position list_insert_ordered chooses with compare_threads: before the first thread
   * whose priority is at least t's, or at the end.
   */
  method InsertPosition(rest: seq<Thread>, t: Thread) returns (at: nat)
    ensures at <= |rest|
    ensures forall k :: 0 <= k < at ==> rest[k].priority < t.priority
    ensures at < |rest| ==> t.priority <= rest[at].priority
  {
    at := 0;
    while at < |rest| && !CompareThreads(t, rest[at])
      invariant 0 <= at <= |rest|
      invariant forall k :: 0 <= k < at ==> rest[k].priority < t.priority
    {
      at := at + 1;
    }
  }

  /** Rearranging a list keeps every thread on it READY. */
  lemma SameThreadsStayReady(before: seq<Thread>, after: seq<Thread>)
    requires multiset(after) == multiset(before)
    requires forall u :: u in before ==> u.status == Ready
    ensures forall u :: u in after ==> u.status == Ready
  {
    forall u | u in after
      ensures u.status == Ready
    {
      assert u in multiset(before);
    }
  }

  /** The ready list and the running thread. */
  class Scheduler {
    var readyList: seq<Thread>
    var running: Thread

    /** An empty ready list, with `running` on the CPU. */
    constructor (running: Thread)
      requires running.status == Running
      ensures readyList == [] && this.running == running && Valid()
    {
      readyList := [];
      this.running := running;
    }

    /**
     * The ready list holds each thread once, only threads in the READY state, in
     * compare_threads order; the running thread is RUNNING.
     */
    ghost predicate Valid()
      reads this, readyList, running
    {
      && Distinct(readyList)
      && SortedByPriority(readyList)
      && (forall t :: t in readyList ==> t.status == Ready)
      && running.status == Running
    }

    /**
     * rearrange_ready_list: take t off the ready list and insert it back where its (new)
     * priority belongs.  Before the call only t may be out of order.
     */
    method RearrangeReadyList(t: Thread) returns (i: nat, j: nat)
      requires t in readyList && Distinct(readyList) && SortedExcept(readyList, t)
      requires (forall u :: u in readyList ==> u.status == Ready) && running.status == Running
      modifies this`readyList
      ensures Valid()
      ensures i < |old(readyList)| && old(readyList)[i] == t
      ensures var rest := old(readyList)[..i] + old(readyList)[i + 1..];
        && j <= |rest|
        && readyList == rest[..j] + [t] + rest[j..]
        && (forall k :: 0 <= k < j ==> rest[k].priority < t.priority)
        && (j < |rest| ==> t.priority <= rest[j].priority)
      ensures multiset(readyList) == multiset(old(readyList))
      ensures multiset(readyList)[t] == 1
    {
      i := IndexOf(readyList, t);
      var rest := readyList[..i] + readyList[i + 1..];
      RemoveKeepsOrder(readyList, i, t);
      j := InsertPosition(rest, t);
      InsertKeepsOrder(rest, j, t);
      SameThreadsStayReady(readyList, rest[..j] + [t] + rest[j..]);
      readyList := rest[..j] + [t] + rest[j..];
    }

    /**
     * check_thread_yield: the running thread should give up the CPU exactly when a ready
     * thread has a strictly higher priority.
     */
    method CheckThreadYield() returns (shouldYield: bool)
      ensures shouldYield <==> exists k :: 0 <= k < |readyList| && readyList[k].priority > running.priority
    {
      shouldYield := false;
      var k := 0;
      while k < |readyList|
        invariant 0 <= k <= |readyList|
        invariant shouldYield <==> exists m :: 0 <= m < k && readyList[m].priority > running.priority
      {
        if readyList[k].priority > running.priority {
          shouldYield := true;
        }
        k := k + 1;
      }
    }
  }

  /**
   * The list-link rule: a thread is on the ready list only when READY and on a semaphore's
   * waiter list only when BLOCKED, so it is never on both.
   */
  lemma ElemOnOneList(sched: Scheduler, s: Semaphore, t: Thread)
    requires sched.Valid()
    requires forall w :: w in s.waiters ==> w.status == Blocked
    ensures !(t in sched.readyList && t in s.waiters)
  {
  }
}
