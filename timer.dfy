/**
 * The timer tick driver: the tick counter, the list of sleeping threads kept in deadline
 * order, and the MLFQS bookkeeping the interrupt handler performs (recent_cpu charging,
 * the once-a-second load_avg and recent_cpu recompute, and the every-fourth-tick priority
 * recompute).  The handler runs with interrupts off, so each method here is one atomic step.
 */
module Timer {
  import opened FixedPoint
  import opened Kernel
  import Threads

  /**
   * The largest thread table the model admits: for up to this many threads load_avg
   * stays at most their count in 17.14 form, and 2 * load_avg + 1 still fits 32 bits.
   */
  const MAX_THREADS: int := 65535

  // ---------------------------------------------------------------------------
  // The sleeping-thread list
  // ---------------------------------------------------------------------------

  /** A sleeping thread and the tick at which it is to be released. */
  datatype SleepingThread = SleepingThread(thread: Thread, ticksTillRelease: int)

  /** order_sleeping_threads: a is released strictly before b. */
  predicate OrderSleepingThreads(a: SleepingThread, b: SleepingThread)
  {
    a.ticksTillRelease < b.ticksTillRelease
  }

  /** order_sleeping_threads is a strict order; records with equal deadlines are unordered. */
  lemma OrderSleepingThreadsIsStrict(a: SleepingThread, b: SleepingThread, c: SleepingThread)
    ensures !OrderSleepingThreads(a, a)
    ensures OrderSleepingThreads(a, b) ==> !OrderSleepingThreads(b, a)
    ensures OrderSleepingThreads(a, b) && OrderSleepingThreads(b, c) ==> OrderSleepingThreads(a, c)
    ensures a.ticksTillRelease == b.ticksTillRelease ==>
      !OrderSleepingThreads(a, b) && !OrderSleepingThreads(b, a)
  {
  }

  /** A list in order_sleeping_threads order: no record is released before an earlier one. */
  ghost predicate SortedByDeadline(s: seq<SleepingThread>)
  {
    forall i, j :: 0 <= i < j < |s| ==> !OrderSleepingThreads(s[j], s[i])
  }

  /** The threads that have a record in recs. */
  ghost function ThreadsOf(recs: seq<SleepingThread>): set<Thread>
  {
    set r | r in recs :: r.thread
  }

  /** No thread has two records in recs. */
  ghost predicate DistinctThreads(recs: seq<SleepingThread>)
  {
    forall i, j :: 0 <= i < j < |recs| ==> recs[i].thread != recs[j].thread
  }

  /** Extending a prefix of recs by one record adds that record's thread. */
  lemma ThreadsOfPrefixStep(recs: seq<SleepingThread>, k: int)
    requires 0 <= k < |recs|
    ensures ThreadsOf(recs[..k + 1]) == ThreadsOf(recs[..k]) + {recs[k].thread}
  {
    assert recs[..k + 1] == recs[..k] + [recs[k]];
  }

  /**
   * Splitting a deadline-ordered list with distinct threads: the rest after k is still
   * ordered with distinct threads, and no thread of the first k records has a record in it.
   */
  lemma SplitSleepingList(recs: seq<SleepingThread>, k: int)
    requires 0 <= k <= |recs| && SortedByDeadline(recs) && DistinctThreads(recs)
    ensures SortedByDeadline(recs[k..]) && DistinctThreads(recs[k..])
    ensures ThreadsOf(recs[..k]) <= ThreadsOf(recs) && ThreadsOf(recs[k..]) <= ThreadsOf(recs)
    ensures ThreadsOf(recs[..k]) !! ThreadsOf(recs[k..])
  {
    assert forall i :: 0 <= i < |recs| - k ==> recs[k..][i] == recs[k + i];
  }

  /** The length of the longest prefix of s whose records are due at tick now. */
  function DuePrefixLength(s: seq<SleepingThread>, now: int): (k: nat)
    ensures k <= |s|
    ensures forall i :: 0 <= i < k ==> s[i].ticksTillRelease <= now
    ensures k < |s| ==> s[k].ticksTillRelease > now
  {
    if |s| == 0 || s[0].ticksTillRelease > now then 0 else 1 + DuePrefixLength(s[1..], now)
  }

  /** A due prefix that stops at the end or at the first record not yet due is the due prefix. */
  lemma {:induction false} DuePrefixLengthUnique(s: seq<SleepingThread>, now: int, k: nat)
    requires k <= |s|
    requires forall i :: 0 <= i < k ==> s[i].ticksTillRelease <= now
    requires k < |s| ==> s[k].ticksTillRelease > now
    ensures DuePrefixLength(s, now) == k
  {
    if k > 0 {
      DuePrefixLengthUnique(s[1..], now, k - 1);
    }
  }

  /** In a deadline-ordered list, every record after the due prefix is not yet due. */
  lemma SortedRestNotDue(s: seq<SleepingThread>, now: int)
    requires SortedByDeadline(s)
    ensures forall i :: DuePrefixLength(s, now) <= i < |s| ==> s[i].ticksTillRelease > now
  {
    var k := DuePrefixLength(s, now);
    forall i | k <= i < |s|
      ensures s[i].ticksTillRelease > now
    {
      if k < i {
        assert !OrderSleepingThreads(s[i], s[k]);
      }
    }
  }

  /**
   * Inserting r in front of the first record released strictly after it keeps a
   * deadline-ordered list ordered.
   */
  lemma InsertKeepsDeadlineOrder(s: seq<SleepingThread>, p: int, r: SleepingThread)
    requires 0 <= p <= |s| && SortedByDeadline(s) && DistinctThreads(s)
    requires forall k :: 0 <= k < p ==> s[k].ticksTillRelease <= r.ticksTillRelease
    requires p < |s| ==> OrderSleepingThreads(r, s[p])
    requires r.thread !in ThreadsOf(s)
    ensures var t := s[..p] + [r] + s[p..];
      && SortedByDeadline(t) && DistinctThreads(t)
      && ThreadsOf(t) == ThreadsOf(s) + {r.thread}
  {
    var t := s[..p] + [r] + s[p..];
    forall i, j | 0 <= i < j < |t|
      ensures !OrderSleepingThreads(t[j], t[i]) && t[i].thread != t[j].thread
    {
      RecordInsertedAt(s, p, r, i);
      RecordInsertedAt(s, p, r, j);
      if i <= p < j {
        assert !OrderSleepingThreads(s[j - 1], s[p]);
      }
      if i != p && j != p {
        assert s[if i < p then i else i - 1] in s;
      }
    }
    InsertedThreads(s, p, r);
  }

  /** Where each record of s[..p] + [r] + s[p..] comes from. */
  lemma RecordInsertedAt(s: seq<SleepingThread>, p: int, r: SleepingThread, k: int)
    requires 0 <= p <= |s| && 0 <= k <= |s|
    ensures (s[..p] + [r] + s[p..])[k] == if k < p then s[k] else if k == p then r else s[k - 1]
  {
  }

  /** Inserting a record adds exactly its thread to the sleeping threads. */
  lemma InsertedThreads(s: seq<SleepingThread>, p: int, r: SleepingThread)
    requires 0 <= p <= |s|
    ensures ThreadsOf(s[..p] + [r] + s[p..]) == ThreadsOf(s) + {r.thread}
  {
    var t := s[..p] + [r] + s[p..];
    assert s == s[..p] + s[p..];
    assert forall x :: x in t <==> x in s || x == r;
  }

  // ---------------------------------------------------------------------------
  // Tick conversion
  // ---------------------------------------------------------------------------

  /**
   * The tick count real_time_sleep computes for num/denom seconds at freq ticks per
   * second: num * freq / denom in 64-bit C arithmetic, rounded down for a non-negative
   * duration.
   */
  function RealTimeSleepTicks(num: int, denom: Int32, freq: int): (ticks: int)
    requires denom > 0 && freq > 0
    ensures num >= 0 ==> 0 <= ticks * denom <= num * freq < (ticks + 1) * denom
    ensures num <= 0 ==> ticks <= 0
  {
    TruncDiv(num * freq, denom)
  }

  // ---------------------------------------------------------------------------
  // MLFQS arithmetic
  // ---------------------------------------------------------------------------

  /**
   * calculate_load_avg1: (59/60) * load_avg + (1/60) * readyThreads, with both coefficients
   * computed as fixed-point quotients.
   */
  function CalculateLoadAvg(loadAvg: Fixed, readyThreads: Int32): Fixed
  {
    var part1 := DivFixed(IntToFixed(59), IntToFixed(60));
    var part1Divided := MulFixed(part1, loadAvg);
    var part2 := DivFixed(IntToFixed(1), IntToFixed(60));
    var part2Mul := MulInt(part2, readyThreads);
    AddFixed(part1Divided, part2Mul)
  }

  /** The two load_avg coefficients: 59/60 truncates to 16110/16384, 1/60 to 273/16384. */
  lemma LoadAvgCoefficients()
    ensures DivFixed(IntToFixed(59), IntToFixed(60)) == 16110
    ensures DivFixed(IntToFixed(1), IntToFixed(60)) == 273
  {
    TruncDivUnique(966656 * FIXED_POINT_FACTOR, 983040, 16110);
    TruncDivUnique(FIXED_POINT_FACTOR * FIXED_POINT_FACTOR, 983040, 273);
  }

  /**
   * load_avg stays between 0 and n threads' worth when at most n threads are counted:
   * the recompute is a weighted average whose weights sum to less than one.
   */
  lemma LoadAvgStaysInRange(loadAvg: Fixed, readyThreads: Int32, n: int)
    requires 0 <= readyThreads <= n <= MAX_THREADS
    requires 0 <= loadAvg <= n * FIXED_POINT_FACTOR
    ensures 0 <= CalculateLoadAvg(loadAvg, readyThreads) <= n * FIXED_POINT_FACTOR
  {
    LoadAvgCoefficients();
    var q := TruncDiv(16110 * loadAvg, FIXED_POINT_FACTOR);
    assert 0 <= q * FIXED_POINT_FACTOR <= 16110 * loadAvg;
    MulMonotone(16110, loadAvg, 16110, n * FIXED_POINT_FACTOR);
    assert q <= 16110 * n;
    assert MulFixed(16110, loadAvg) == q;
    assert MulInt(273, readyThreads) == 273 * readyThreads;
  }

  /** Doubling a load average in range is exact, and adding one unit to it cannot wrap. */
  lemma DoubledLoadAvg(loadAvg: Fixed)
    requires 0 <= loadAvg <= MAX_THREADS * FIXED_POINT_FACTOR
    ensures MulFixed(loadAvg, IntToFixed(2)) == 2 * loadAvg
    ensures AddFixed(2 * loadAvg, IntToFixed(1)) == 2 * loadAvg + FIXED_POINT_FACTOR
  {
    assert loadAvg * IntToFixed(2) == (2 * loadAvg) * FIXED_POINT_FACTOR;
    TruncDivExact(2 * loadAvg, FIXED_POINT_FACTOR);
  }

  /**
   * The decay coefficient 2 * load_avg / (2 * load_avg + 1) of the recent_cpu recompute: the
   * real quotient rounded down to a fixed-point number, which lies in [0, 1).
   */
  function DecayCoefficient(loadAvg: Fixed): (ratio: Fixed)
    requires 0 <= loadAvg <= MAX_THREADS * FIXED_POINT_FACTOR
    ensures 0 <= ratio < FIXED_POINT_FACTOR
    ensures ratio * (2 * loadAvg + FIXED_POINT_FACTOR) <= 2 * loadAvg * FIXED_POINT_FACTOR
    ensures 2 * loadAvg * FIXED_POINT_FACTOR < (ratio + 1) * (2 * loadAvg + FIXED_POINT_FACTOR)
  {
    DoubledLoadAvg(loadAvg);
    DecayQuotientBelowOne(loadAvg);
    var loadAvgTimesTwo := MulFixed(loadAvg, IntToFixed(2));
    var denominator := AddFixed(loadAvgTimesTwo, IntToFixed(1));
    DivFixed(loadAvgTimesTwo, denominator)
  }

  /** A product with a positive factor is positive only when the other factor is. */
  lemma PositiveFactor(x: int, d: int)
    requires d > 0 && x * d > 0
    ensures x > 0
  {
  }

  /** The truncated quotient (2 * load_avg * F) / (2 * load_avg + F) is its floor, and lies in [0, F). */
  lemma DecayQuotientBelowOne(loadAvg: Fixed)
    requires 0 <= loadAvg <= MAX_THREADS * FIXED_POINT_FACTOR
    ensures var q := TruncDiv(2 * loadAvg * FIXED_POINT_FACTOR, 2 * loadAvg + FIXED_POINT_FACTOR);
      && 0 <= q < FIXED_POINT_FACTOR
      && q * (2 * loadAvg + FIXED_POINT_FACTOR) <= 2 * loadAvg * FIXED_POINT_FACTOR
      && 2 * loadAvg * FIXED_POINT_FACTOR < (q + 1) * (2 * loadAvg + FIXED_POINT_FACTOR)
  {
    var a := 2 * loadAvg * FIXED_POINT_FACTOR;
    var d := 2 * loadAvg + FIXED_POINT_FACTOR;
    var q := TruncDiv(a, d);
    assert 0 <= q * d <= a;
    assert (FIXED_POINT_FACTOR - q) * d == FIXED_POINT_FACTOR * d - q * d;
    assert FIXED_POINT_FACTOR * d == a + FIXED_POINT_FACTOR * FIXED_POINT_FACTOR;
    PositiveFactor(FIXED_POINT_FACTOR - q, d);
    assert (q + 1) * d == q * d + d;
    PositiveFactor(q + 1, d);
  }

  /** The recent_cpu recompute: decay * recent_cpu + nice. */
  function DecayedRecentCpu(loadAvg: Fixed, recentCpu: Fixed, nice: Int32): Fixed
    requires 0 <= loadAvg <= MAX_THREADS * FIXED_POINT_FACTOR
  {
    AddInt(MulFixed(DecayCoefficient(loadAvg), recentCpu), nice)
  }

  /** Before nice is added, the recompute never increases recent_cpu in magnitude. */
  lemma RecentCpuDecays(loadAvg: Fixed, recentCpu: Fixed)
    requires 0 <= loadAvg <= MAX_THREADS * FIXED_POINT_FACTOR
    ensures Abs(MulFixed(DecayCoefficient(loadAvg), recentCpu)) <= Abs(recentCpu)
    ensures DecayedRecentCpu(loadAvg, recentCpu, 0) == MulFixed(DecayCoefficient(loadAvg), recentCpu)
  {
    var ratio := DecayCoefficient(loadAvg);
    var q := TruncDiv(ratio * recentCpu, FIXED_POINT_FACTOR);
    AbsMul(ratio, recentCpu);
    AbsMul(q, FIXED_POINT_FACTOR);
    MulMonotone(ratio, Abs(recentCpu), FIXED_POINT_FACTOR, Abs(recentCpu));
    assert Abs(q) <= Abs(recentCpu);
    assert MulFixed(ratio, recentCpu) == q;
  }

  /** t's recent_cpu after a tick is charged to the running thread: one more unit unless idle. */
  function Charged(t: Thread, running: Thread, idle: Thread, recentCpu: Fixed): Fixed
  {
    if t == running && t != idle then AddInt(recentCpu, 1) else recentCpu
  }

  /** Whether t counts toward load_avg: it is not the idle thread and is running or ready. */
  predicate CountsTowardLoad(t: Thread, idle: Thread)
    reads t`status
  {
    t != idle && (t.status == Running || t.status == Ready)
  }

  /** The number of threads of ts that count toward load_avg. */
  ghost function RunningOrReadyCount(ts: seq<Thread>, idle: Thread): (c: nat)
    reads ts`status
    ensures c <= |ts|
  {
    if |ts| == 0 then 0
    else RunningOrReadyCount(ts[..|ts| - 1], idle) + (if CountsTowardLoad(ts[|ts| - 1], idle) then 1 else 0)
  }

  // ---------------------------------------------------------------------------
  // The timer state
  // ---------------------------------------------------------------------------

  /**
   * The timer's global state: the tick counter, load_avg, the sleeping-thread list, the
   * table of all threads, the running thread and the idle thread.
   */
  class TimerState {
    /** TIMER_FREQ: timer interrupts per second. */
    const freq: int
    var ticks: int
    var loadAvg: Fixed
    var sleeping: seq<SleepingThread>
    var allThreads: seq<Thread>
    var current: Thread
    var idle: Thread

    /** The timer state's invariant: the table and clock part and the thread-state part. */
    ghost predicate Valid()
      reads this, allThreads`status
    {
      TableValid() && ThreadsValid()
    }

    /**
     * The frequency, tick counter and load average are in range; each thread is in the
     * table once, and the running and idle threads are among them.
     */
    ghost predicate TableValid()
      reads this
    {
      && 19 <= freq <= 1000
      && 0 <= ticks
      && |allThreads| <= MAX_THREADS
      && 0 <= loadAvg <= |allThreads| * FIXED_POINT_FACTOR
      && Threads.Distinct(allThreads)
      && current in allThreads && idle in allThreads
    }

    /**
     * Exactly the current thread is RUNNING; the sleeping list is in deadline order, holds
     * each thread at most once, and holds only BLOCKED threads of the table other than the
     * idle thread.
     */
    ghost predicate ThreadsValid()
      reads this`allThreads, this`current, this`idle, this`sleeping, allThreads`status
    {
      && current in allThreads && current.status == Running
      && (forall t :: t in allThreads && t.status == Running ==> t == current)
      && SortedByDeadline(sleeping) && DistinctThreads(sleeping)
      && (forall t :: t in ThreadsOf(sleeping) ==> t in allThreads && t != idle && t.status == Blocked)
    }

    /** The state at boot: tick 0, load_avg 0 and nobody asleep. */
    constructor (freq: int, threads: seq<Thread>, current: Thread, idle: Thread)
      requires 19 <= freq <= 1000 && |threads| <= MAX_THREADS && Threads.Distinct(threads)
      requires current in threads && idle in threads && current.status == Running
      requires forall t :: t in threads && t.status == Running ==> t == current
      ensures Valid()
      ensures this.freq == freq && allThreads == threads && this.current == current && this.idle == idle
      ensures ticks == 0 && loadAvg == 0 && sleeping == []
    {
      this.freq := freq;
      ticks := 0;
      loadAvg := 0;
      sleeping := [];
      allThreads := threads;
      this.current := current;
      this.idle := idle;
    }

    /** timer_elapsed: the ticks that have passed since `start`, a value of timer_ticks. */
    function TimerElapsed(start: int): (elapsed: int)
      reads this
      ensures start + elapsed == ticks
    {
      ticks - start
    }

    /**
     * timer_sleep: record the running thread as sleeping until n ticks after `start`, in
     * deadline order, then block it; the scheduler switches to `next`.  `start` is the tick
     * count read before interrupts are masked, so ticks may have passed since.  Nothing
     * guards against n <= 0: such a sleeper is released by the next tick.
     */
    method Sleep(start: int, n: int, next: Thread)
      requires Valid() && start <= ticks
      requires current != idle
      requires next in allThreads && next != current && (next.status == Ready || next == idle)
      modifies this`sleeping, this`current, current`status, next`status
      ensures Valid()
      ensures ticks == old(ticks) && loadAvg == old(loadAvg) && idle == old(idle)
      ensures exists p :: (0 <= p <= |old(sleeping)| &&
        sleeping == old(sleeping)[..p] + [SleepingThread(old(current), start + n)] + old(sleeping)[p..])
      ensures old(current).status == Blocked && current == next && next.status == Running
    {
      var record := SleepingThread(current, start + n);
      ghost var asleep := ThreadsOf(sleeping);
      assert current !in asleep && next !in asleep;
      var i := 0;
      while i < |sleeping| && !OrderSleepingThreads(record, sleeping[i])
        invariant 0 <= i <= |sleeping|
        invariant forall k :: 0 <= k < i ==> sleeping[k].ticksTillRelease <= record.ticksTillRelease
      {
        i := i + 1;
      }
      InsertKeepsDeadlineOrder(sleeping, i, record);
      sleeping := sleeping[..i] + [record] + sleeping[i..];
      // thread_block: the caller is blocked and the scheduler runs `next`
      current.status := Blocked;
      next.status := Running;
      current := next;
    }

    /** count_running_or_ready_threads1: count the non-idle threads that are running or ready. */
    method CountRunningOrReadyThreads() returns (count: int)
      ensures count == RunningOrReadyCount(allThreads, idle)
      ensures 0 <= count <= |allThreads|
    {
      count := 0;
      var i := 0;
      while i < |allThreads|
        invariant 0 <= i <= |allThreads|
        invariant count == RunningOrReadyCount(allThreads[..i], idle)
      {
        assert allThreads[..i + 1][..i] == allThreads[..i];
        if CountsTowardLoad(allThreads[i], idle) {
          count := count + 1;
        }
        i := i + 1;
      }
      assert allThreads[..i] == allThreads;
    }

    /** update_load_avg: recompute load_avg from the current count of running or ready threads. */
    method UpdateLoadAvg()
      requires TableValid()
      modifies this`loadAvg
      ensures TableValid()
      ensures loadAvg == CalculateLoadAvg(old(loadAvg), RunningOrReadyCount(allThreads, idle))
    {
      var count := CountRunningOrReadyThreads();
      LoadAvgStaysInRange(loadAvg, count, |allThreads|);
      loadAvg := CalculateLoadAvg(loadAvg, count);
    }

    /** update_recent_cpu_for_all_threads: decay every thread's recent_cpu and add its nice. */
    method UpdateRecentCpuForAllThreads()
      requires TableValid()
      modifies allThreads`recentCpu
      ensures TableValid()
      ensures forall t :: t in allThreads ==> t.recentCpu == DecayedRecentCpu(loadAvg, old(t.recentCpu), t.nice)
    {
      var i := 0;
      while i < |allThreads|
        invariant 0 <= i <= |allThreads|
        invariant forall k :: 0 <= k < i ==>
          allThreads[k].recentCpu == DecayedRecentCpu(loadAvg, old(allThreads[k].recentCpu), allThreads[k].nice)
        invariant forall k :: i <= k < |allThreads| ==> allThreads[k].recentCpu == old(allThreads[k].recentCpu)
      {
        var t := allThreads[i];
        var ratio := DecayCoefficient(loadAvg);
        var product := MulFixed(ratio, t.recentCpu);
        t.recentCpu := AddInt(product, t.nice);
        i := i + 1;
      }
    }

    /**
     * update_priority_for_all_threads: give every thread but the idle thread the priority
     * calculate_priority() returns.
     */
    method UpdatePriorityForAllThreads(calculatedPriority: int)
      requires TableValid()
      modifies allThreads`priority
      ensures TableValid()
      ensures forall t :: t in allThreads ==> t.priority == if t == idle then old(t.priority) else calculatedPriority
    {
      var i := 0;
      while i < |allThreads|
        invariant 0 <= i <= |allThreads|
        invariant forall k :: 0 <= k < i ==>
          allThreads[k].priority == if allThreads[k] == idle then old(allThreads[k].priority) else calculatedPriority
        invariant forall k :: i <= k < |allThreads| ==> allThreads[k].priority == old(allThreads[k].priority)
      {
        var t := allThreads[i];
        if t != idle {
          t.priority := calculatedPriority;
        }
        i := i + 1;
      }
    }

    /**
     * The wake-up loop of timer_interrupt: take off the list, in order, every record at its
     * front whose deadline has come, and unblock its thread; stop at the first record that
     * is not due.  Returns how many records were taken off.
     */
    method ReleaseDueSleepers() returns (ghost k: nat)
      requires forall t :: t in ThreadsOf(sleeping) ==> t in allThreads
      modifies this`sleeping, allThreads`status
      ensures k == DuePrefixLength(old(sleeping), ticks)
      ensures sleeping == old(sleeping)[k..]
      ensures forall t :: t in allThreads ==>
        t.status == if t in ThreadsOf(old(sleeping)[..k]) then Ready else old(t.status)
    {
      ghost var orig := sleeping;
      k := 0;
      while |sleeping| > 0 && sleeping[0].ticksTillRelease <= ticks
        invariant 0 <= k <= |orig| && sleeping == orig[k..]
        invariant forall i :: 0 <= i < k ==> orig[i].ticksTillRelease <= ticks
        invariant forall t :: t in ThreadsOf(orig) ==> t in allThreads
        invariant forall t :: t in allThreads ==>
          t.status == if t in ThreadsOf(orig[..k]) then Ready else old(t.status)
        decreases |sleeping|
      {
        var r := sleeping[0];
        assert r == orig[k] && r in orig;
        assert r.thread in ThreadsOf(orig);
        ThreadsOfPrefixStep(orig, k);
        sleeping := sleeping[1..];
        // thread_unblock
        r.thread.status := Ready;
        k := k + 1;
      }
      DuePrefixLengthUnique(orig, ticks, k);
    }

    /**
     * The wake-up scan keeps the timer state valid: the released threads become READY, the
     * rest of the list stays ordered and asleep, and the running thread is untouched.
     */
    method WakeSleepingThreads()
      requires Valid()
      modifies this`sleeping, allThreads`status
      ensures Valid()
      ensures sleeping == old(sleeping)[old(DuePrefixLength(sleeping, ticks))..]
      ensures forall t :: t in allThreads ==>
        t.status == if t in ThreadsOf(old(sleeping)[..old(DuePrefixLength(sleeping, ticks))]) then Ready else old(t.status)
    {
      ghost var orig := sleeping;
      var k := ReleaseDueSleepers();
      SplitSleepingList(orig, k);
      ghost var woken := ThreadsOf(orig[..k]);
      assert current !in woken;
      forall t | t in allThreads && t.status == Running
        ensures t == current
      {
        assert t !in woken;
      }
      forall t | t in ThreadsOf(sleeping)
        ensures t in allThreads && t != idle && t.status == Blocked
      {
        assert t !in woken;
      }
    }

    /**
     * The once-a-second block of timer_interrupt: recompute load_avg, then every thread's
     * recent_cpu with the new load_avg.
     */
    method UpdateOncePerSecond()
      requires TableValid()
      modifies this`loadAvg, allThreads`recentCpu
      ensures TableValid()
      ensures loadAvg == CalculateLoadAvg(old(loadAvg), old(RunningOrReadyCount(allThreads, idle)))
      ensures forall t :: t in allThreads ==> t.recentCpu == DecayedRecentCpu(loadAvg, old(t.recentCpu), t.nice)
    {
      UpdateLoadAvg();
      UpdateRecentCpuForAllThreads();
    }

    /**
     * The periodic recomputes of timer_interrupt: once a second load_avg and then every
     * thread's recent_cpu; every fourth tick every non-idle thread's priority, set to what
     * calculate_priority() returns.
     */
    method RecomputePeriodic(calculatedPriority: int)
      requires TableValid()
      modifies this`loadAvg, allThreads`recentCpu, allThreads`priority
      ensures TableValid()
      ensures loadAvg ==
        if ticks % freq == 0 then CalculateLoadAvg(old(loadAvg), old(RunningOrReadyCount(allThreads, idle)))
        else old(loadAvg)
      ensures forall t :: t in allThreads ==>
        t.recentCpu == if ticks % freq == 0 then DecayedRecentCpu(loadAvg, old(t.recentCpu), t.nice) else old(t.recentCpu)
      ensures forall t :: t in allThreads ==>
        t.priority == if ticks % 4 == 0 && t != idle then calculatedPriority else old(t.priority)
    {
      if ticks % freq == 0 {
        UpdateOncePerSecond();
      }
      if ticks % 4 == 0 {
        UpdatePriorityForAllThreads(calculatedPriority);
      }
    }

    /**
     * The MLFQS part of timer_interrupt: advance the tick counter, charge one unit of
     * recent_cpu to the running thread unless it is idle, then run the periodic recomputes.
     */
    method MlfqsTick(calculatedPriority: int)
      requires TableValid()
      modifies this`ticks, this`loadAvg, allThreads`recentCpu, allThreads`priority
      ensures TableValid()
      ensures ticks == old(ticks) + 1
      ensures loadAvg ==
        if ticks % freq == 0 then CalculateLoadAvg(old(loadAvg), old(RunningOrReadyCount(allThreads, idle)))
        else old(loadAvg)
      ensures forall t :: t in allThreads ==>
        t.recentCpu == if ticks % freq == 0
          then DecayedRecentCpu(loadAvg, Charged(t, current, idle, old(t.recentCpu)), t.nice)
          else Charged(t, current, idle, old(t.recentCpu))
      ensures forall t :: t in allThreads ==>
        t.priority == if ticks % 4 == 0 && t != idle then calculatedPriority else old(t.priority)
    {
      ticks := ticks + 1;
      if current != idle {
        current.recentCpu := AddInt(current.recentCpu, 1);
      }
      RecomputePeriodic(calculatedPriority);
    }

    /**
     * timer_interrupt: advance the tick counter, do the MLFQS bookkeeping, then release the
     * sleepers whose deadline has come.
     */
    method Tick(calculatedPriority: int)
      requires Valid() && IsPriority(calculatedPriority)
      modifies this`ticks, this`loadAvg, this`sleeping
      modifies allThreads`recentCpu, allThreads`priority, allThreads`status
      ensures Valid()
      ensures ticks == old(ticks) + 1
      ensures loadAvg ==
        if ticks % freq == 0 then CalculateLoadAvg(old(loadAvg), old(RunningOrReadyCount(allThreads, idle)))
        else old(loadAvg)
      ensures forall t :: t in allThreads ==>
        t.recentCpu == if ticks % freq == 0
          then DecayedRecentCpu(loadAvg, Charged(t, current, idle, old(t.recentCpu)), t.nice)
          else Charged(t, current, idle, old(t.recentCpu))
      ensures forall t :: t in allThreads ==>
        t.priority == if ticks % 4 == 0 && t != idle then calculatedPriority else old(t.priority)
      ensures sleeping == old(sleeping)[DuePrefixLength(old(sleeping), ticks)..]
      ensures forall t :: t in allThreads ==>
        t.status == if t in ThreadsOf(old(sleeping)[..DuePrefixLength(old(sleeping), ticks)]) then Ready else old(t.status)
    {
      MlfqsTick(calculatedPriority);
      ThreadsValidKept(this);
      WakeSleepingThreads();
    }

    /**
     * real_time_sleep: convert num/denom seconds into ticks and sleep that long when it is
     * at least one tick; a shorter duration is a busy-wait that leaves the state as it is.
     * `start` is the tick count timer_sleep reads on entry.
     */
    method RealTimeSleep(num: int, denom: Int32, start: int, next: Thread)
      requires Valid() && denom > 0 && start <= ticks
      requires current != idle
      requires next in allThreads && next != current && (next.status == Ready || next == idle)
      modifies this`sleeping, this`current, current`status, next`status
      ensures Valid()
      ensures ticks == old(ticks) && loadAvg == old(loadAvg) && idle == old(idle)
      ensures var n := RealTimeSleepTicks(num, denom, freq);
        if n > 0 then
          && old(current).status == Blocked && current == next && next.status == Running
          && exists p :: (0 <= p <= |old(sleeping)| &&
               sleeping == old(sleeping)[..p] + [SleepingThread(old(current), start + n)] + old(sleeping)[p..])
        else
          && sleeping == old(sleeping) && current == old(current)
          && current.status == old(current.status) && next.status == old(next.status)
    {
      var n := RealTimeSleepTicks(num, denom, freq);
      if n > 0 {
        Sleep(start, n, next);
      }
    }
  }

  /**
   * The thread bookkeeping depends only on the table, the current, idle and sleeping
   * fields and the threads' states, so a step that keeps those keeps it valid.
   */
  twostate lemma ThreadsValidKept(ts: TimerState)
    requires old(ts.ThreadsValid())
    requires ts.allThreads == old(ts.allThreads) && ts.current == old(ts.current)
    requires ts.idle == old(ts.idle) && ts.sleeping == old(ts.sleeping)
    requires forall t :: t in ts.allThreads ==> t.status == old(t.status)
    ensures ts.ThreadsValid()
  {
  }
}
