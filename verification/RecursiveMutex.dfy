/**
 Recursive mutexes over whole runs (server/core/port/pthread.c): the counter against the
 number of locks and unlocks by the owner, whatever other threads do in between.
 */
module RecursiveMutex {
  import opened Links
  import opened ReadyQueues
  import opened Scheduler
  import opened MutexSteps

  /** A lock of m by t counts 1 and an unlock, also the one inside pthread_cond_wait_sys, counts -1. */
  ghost function Change(k: Kernel, e: Step, m: nat, t: Tid): int {
    if e.Wake? || k.s.current != t then 0
    else if e == Lock(m) || e == TryLock(m) then 1
    else if e == Unlock(m) || (e.CondWait? && e.m == m) then -1
    else 0
  }

  /** Locks minus unlocks of m by t in the steps from i up to j. */
  ghost function Balance(ks: seq<Kernel>, es: seq<Step>, m: nat, t: Tid, i: nat, j: nat): int
    requires i <= j <= |es| && j < |ks|
    decreases j - i
  {
    if i == j then 0 else Balance(ks, es, m, t, i, j - 1) + Change(ks[j - 1], es[j - 1], m, t)
  }

  /** Thread t owns recursive mutex m with counter n. */
  ghost predicate Holds(k: Kernel, m: nat, t: Tid, n: int) {
    && m < |k.mutex| && t != NULL
    && k.mutex[m].kind.Recursive? && k.mutex[m].owner == t && k.mutex[m].counter == n
  }

  ghost predicate Freed(k: Kernel, m: nat) {
    m < |k.mutex| && k.mutex[m].owner == NULL && k.mutex[m].counter == 0
  }

  /** A step while t owns m: the counter follows t's locks and unlocks, and an unlock that finds it below 2 frees m. */
  lemma HoldStep(k: Kernel, e: Step, m: nat, t: Tid, n: int)
    requires Enabled(k, e) && Holds(k, m, t, n)
    ensures if Change(k, e, m, t) < 0 && n < 2 then Freed(Apply(k, e), m)
            else Holds(Apply(k, e), m, t, n + Change(k, e, m, t))
  {
    hide Ok, Waiting, KnownAll, ActivateAll, MutexOk;
  }

  lemma TakesWithCounter(k: Kernel, e: Step, m: nat)
    requires Enabled(k, e) && Takes(k, e, m) && k.mutex[m].kind.Recursive?
    ensures Holds(Apply(k, e), m, k.s.current, if e.Lock? then 1 else 0)
  {
    assert MutexOk(k, m);
  }

  /**
   Taken by pthread_mutex_lock_sys at step i, a recursive mutex stays its owner's as long as the locks since then, that
   one included, outnumber the unlocks; the counter is the difference; and the unlock that makes it 0 frees the mutex.
   */
  lemma {:induction false} UnlocksMatchLocks(ks: seq<Kernel>, es: seq<Step>, m: nat, i: nat, j: nat)
    requires Interleaving(ks, es) && KernelOk(ks[0]) && i < j <= |es|
    requires es[i] == Lock(m) && Takes(ks[i], es[i], m) && ks[i].mutex[m].kind.Recursive?
    requires forall h :: i < h < j ==> Balance(ks, es, m, ks[i].s.current, i, h) > 0
    ensures var t, d := ks[i].s.current, Balance(ks, es, m, ks[i].s.current, i, j);
            d >= 0 && if d > 0 then Holds(ks[j], m, t, d) else Freed(ks[j], m)
    decreases j
  {
    hide KernelOk, Enabled, Moves, Apply, Holds, Freed, Takes;
    EveryInterleaving(ks, es, j - 1);
    if j == i + 1 {
      TakesWithCounter(ks[i], es[i], m);
    } else {
      var t := ks[i].s.current;
      UnlocksMatchLocks(ks, es, m, i, j - 1);
      HoldStep(ks[j - 1], es[j - 1], m, t, Balance(ks, es, m, t, i, j - 1));
    }
  }

  /**
   Taken by pthread_mutex_trylock_sys, which leaves the counter 0, the counter stays one behind. The mutex stays its
   owner's until the first unlock that leaves at most one lock unmatched: an unlock too early once it was locked again.
   */
  lemma {:induction false} TryLockedUnlocks(ks: seq<Kernel>, es: seq<Step>, m: nat, i: nat, j: nat)
    requires Interleaving(ks, es) && KernelOk(ks[0]) && i < j <= |es|
    requires es[i] == TryLock(m) && Takes(ks[i], es[i], m) && ks[i].mutex[m].kind.Recursive?
    requires forall h :: i < h < j - 1 && Change(ks[h], es[h], m, ks[i].s.current) < 0 ==>
               Balance(ks, es, m, ks[i].s.current, i, h + 1) > 1
    ensures var t, d := ks[i].s.current, Balance(ks, es, m, ks[i].s.current, i, j);
            if Change(ks[j - 1], es[j - 1], m, t) < 0 && d <= 1 then Freed(ks[j], m) else Holds(ks[j], m, t, d - 1)
    decreases j
  {
    hide KernelOk, Enabled, Moves, Apply, Holds, Freed, Takes;
    EveryInterleaving(ks, es, j - 1);
    if j == i + 1 {
      TakesWithCounter(ks[i], es[i], m);
    } else {
      var t := ks[i].s.current;
      TryLockedUnlocks(ks, es, m, i, j - 1);
      HoldStep(ks[j - 1], es[j - 1], m, t, Balance(ks, es, m, t, i, j - 1) - 1);
    }
  }

  /** With a free recursive mutex and a ready thread that is in no call, trylock, lock and one unlock free the mutex. */
  lemma OneUnlockTooEarly(k: Kernel, m: nat) returns (ks: seq<Kernel>)
    requires KernelOk(k) && m < |k.mutex|
    requires k.mutex[m].kind.Recursive? && !k.mutex[m].protect && k.mutex[m].owner == NULL
    requires k.s.IsReady(k.s.current) && k.s.current !in k.inLock
    ensures |ks| == 4 && ks[0] == k && Interleaving(ks, [TryLock(m), Lock(m), Unlock(m)])
    ensures Balance(ks, [TryLock(m), Lock(m), Unlock(m)], m, k.s.current, 0, 3) == 1 && Freed(ks[3], m)
  {
    var t, es := k.s.current, [TryLock(m), Lock(m), Unlock(m)];
    var k1 := Apply(k, TryLock(m));
    TakesWithCounter(k, TryLock(m), m);
    StepOk(k, TryLock(m));
    assert k1.s == k.s && k1.inLock == k.inLock;
    var k2 := Apply(k1, Lock(m));
    HoldStep(k1, Lock(m), m, t, 0);
    StepOk(k1, Lock(m));
    assert k2.s == k.s && t !in k2.inLock;
    HoldStep(k2, Unlock(m), m, t, 1);
    ks := [k, k1, k2, Apply(k2, Unlock(m))];
    hide KernelOk, Apply, Allowed, Holds, Freed;
    assert Moves(ks, es, 0) && Moves(ks, es, 1) && Moves(ks, es, 2);
    assert Balance(ks, es, m, t, 0, 1) == 1 && Balance(ks, es, m, t, 0, 2) == 2;
  }

  /** There is such a kernel. */
  lemma SomeKernel() returns (k: Kernel)
    ensures KernelOk(k) && k.s.IsReady(k.s.current) && k.inLock == map[]
    ensures k.mutex == [Mutex(Recursive, false, 0, 0, NULL, 0)]
  {
    var k0 := Kernel(Idle(1), [Mutex(Recursive, false, 0, 0, NULL, 0)], [[]], [], map[]);
    IdleOk(1);
    assert k0.waiters + k0.conds == [[]];
    KernelIsOk(k0);
    CreateOk(k0, 2, 5);
    k := CreateStep(k0, 2, 5);
    StartsReady(k0.s, 2, 5);
  }

  lemma StartsReady(s: Sched, t: Tid, prio: nat)
    requires Ok(s) && s.nesting == 0 && t != NULL && !s.Known(t) && prio < PRIORITIES
    ensures var s' := Start(Register(s, t), t, prio); s'.IsReady(s'.current)
  {
    RegisterOk(s, t);
    var s1 := Register(s, t);
    ChangePrioOk(s1, t, prio);
    ActivateOk(ChangePrio(s1, t, prio), t);
    var s2 := Activate(ChangePrio(s1, t, prio), t);
    assert s2.IsReady(t);
    ScheduleOk(s2);
  }
}
