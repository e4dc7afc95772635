/**
 What threads that wait in a call of server/core/port/pthread.c can rely on, over whole
 runs: no wake-up is lost, nobody is forgotten, and a wait ends only with the mutex held.
 */
module WaitingThreads {
  import opened Links
  import opened ReadyQueues
  import opened Scheduler
  import opened MutexSteps

  /** Thread t goes on in the lock loop of mutex m. */
  ghost predicate Retaking(k: Kernel, m: nat, t: Tid) {
    t in k.inLock && k.inLock[t] == m
  }

  /** The running thread gets stuck in pthread_mutex_lock_sys or pthread_cond_wait_sys with mutex m. */
  ghost predicate Enters(k: Kernel, e: Step, m: nat) {
    && Enabled(k, e)
    && ((e == Lock(m) && LockStep(k, m).1.Blocked?) || (e.CondWait? && e.m == m && CondWaitStep(k, e.c, m).1.Blocked?))
  }

  /** Thread t comes out of the lock loop of m. */
  ghost predicate Returns(k: Kernel, e: Step, m: nat, t: Tid) {
    Enabled(k, e) && k.s.current == t && e == Lock(m) && !LockStep(k, m).1.Blocked?
  }

  // ----- a wait returns only with the mutex held

  lemma EntersLoop(k: Kernel, e: Step, m: nat)
    requires Enters(k, e, m)
    ensures Retaking(Apply(k, e), m, k.s.current)
  {
  }

  lemma StaysInLoop(k: Kernel, e: Step, m: nat, t: Tid)
    requires Enabled(k, e) && Retaking(k, m, t)
    ensures if Returns(k, e, m, t)
            then m < |Apply(k, e).mutex| && Apply(k, e).mutex[m].owner == t && t !in Apply(k, e).inLock
            else Retaking(Apply(k, e), m, t)
    ensures k.s.current == t && !e.Wake? ==> e == Lock(m)
  {
  }

  /**
   After pthread_cond_wait_sys has put its caller to sleep at step i, or pthread_mutex_lock_sys has, every step of that
   thread is a new attempt to take the mutex, until an attempt returns; and then the thread owns the mutex.
   */
  lemma {:induction false} ReturnsOwning(ks: seq<Kernel>, es: seq<Step>, i: nat, j: nat, m: nat)
    requires Interleaving(ks, es) && KernelOk(ks[0]) && i < j < |es|
    requires Enters(ks[i], es[i], m)
    requires forall h :: i < h < j ==> !Returns(ks[h], es[h], m, ks[i].s.current)
    ensures var t := ks[i].s.current;
            && Retaking(ks[j], m, t)
            && (ks[j].s.current == t && !es[j].Wake? ==> es[j] == Lock(m))
            && (Returns(ks[j], es[j], m, t) ==>
                 m < |ks[j + 1].mutex| && ks[j + 1].mutex[m].owner == t && t !in ks[j + 1].inLock)
  {
    hide Apply, KernelOk, Enabled, Enters, Returns, Moves, Retaking;
    var t := ks[i].s.current;
    EveryInterleaving(ks, es, j - 1);
    EveryInterleaving(ks, es, j);
    if j == i + 1 {
      EntersLoop(ks[i], es[i], m);
    } else {
      ReturnsOwning(ks, es, i, j - 1, m);
      StaysInLoop(ks[j - 1], es[j - 1], m, t);
    }
    StaysInLoop(ks[j], es[j], m, t);
  }

  // ----- a waiter of a condition is woken by the first signal meant for it

  /** Thread t sleeps on condition c, inside a wait with mutex m. */
  ghost predicate SleepsOn(k: Kernel, c: nat, m: nat, t: Tid) {
    c < |k.conds| && t in k.conds[c] && t in k.s.state && k.s.state[t].Suspended? && Retaking(k, m, t)
  }

  /** A broadcast, or a signal that finds t in front. */
  ghost predicate Wakes(k: Kernel, e: Step, c: nat, t: Tid) {
    c < |k.conds| && k.conds[c] != [] && (e == Broadcast(c) || (e == Signal(c) && k.conds[c][0] == t))
  }

  /** Thread t is ready and on no list. */
  ghost predicate Awake(k: Kernel, t: Tid) {
    k.s.IsReady(t) && !Listed(k.waiters + k.conds, t)
  }

  lemma SleepBegins(k: Kernel, c: nat, m: nat)
    requires Enabled(k, CondWait(c, m)) && k.mutex[m].owner == k.s.current
    ensures SleepsOn(Apply(k, CondWait(c, m)), c, m, k.s.current)
  {
    UnlockShaped(k, m);
    ActivateAllFrame(k.s, k.waiters[m]);
    ReadyNotWaiting(k, k.s.current);
  }

  lemma SleepGoesOn(k: Kernel, e: Step, c: nat, m: nat, t: Tid)
    requires Enabled(k, e) && SleepsOn(k, c, m, t)
    ensures if Wakes(k, e, c, t) then Awake(Apply(k, e), t) && Retaking(Apply(k, e), m, t)
            else SleepsOn(Apply(k, e), c, m, t)
  {
    hide Apply, Drops;
    OneCondition(k, c, c, t);
    if e.Unlock? || e.CondWait? {
      NotAmong(k, e.m, c, t);
      OthersUnlock(k, e, t);
    } else if e.Signal? || e.Broadcast? {
      OneCondition(k, c, e.c, t);
      OthersNotify(k, e, t);
      StepOk(k, e);
      if Wakes(k, e, c, t) {
        ReadyNotWaiting(Apply(k, e), t);
      }
    } else {
      assert Listed(k.waiters + k.conds, t) by {
        assert (k.waiters + k.conds)[|k.waiters| + c] == k.conds[c];
      }
      OthersElse(k, e, t);
    }
  }

  // What a step does to a thread that sleeps.
  lemma OthersUnlock(k: Kernel, e: Step, t: Tid)
    requires Enabled(k, e) && (e.Unlock? || e.CondWait?) && t in k.s.state && k.s.state[t].Suspended?
    ensures var k', t0 := Apply(k, e), k.s.current;
            && t in k'.s.state
            && k'.s.state[t] == (if Drops(k, e, e.m) && t in k.waiters[e.m] then Ready else Suspended)
            && (t in k.inLock ==> t in k'.inLock && k'.inLock[t] == k.inLock[t])
            && k'.waiters == (if Drops(k, e, e.m) then k.waiters[e.m := []] else k.waiters)
            && k'.conds == (if e.CondWait? && k.mutex[e.m].owner == t0 then k.conds[e.c := [t0] + k.conds[e.c]]
                            else k.conds)
  {
    SleeperAfterUnlock(k, e.m, t);
    UnlockShaped(k, e.m);
    hide UnlockStep, UnlockSchedules, KnownAll, Waiting, MutexOk;
  }

  lemma SleeperAfterUnlock(k: Kernel, m: nat, t: Tid)
    requires KernelOk(k) && m < |k.mutex| && t in k.s.state && k.s.state[t].Suspended?
    ensures var k' := UnlockStep(k, m).0;
            && t in k'.s.state && k'.inLock == k.inLock && k'.conds == k.conds
            && k'.s.state[t] == (if Drops(k, Unlock(m), m) && t in k.waiters[m] then Ready else Suspended)
            && k'.waiters == (if Drops(k, Unlock(m), m) then k.waiters[m := []] else k.waiters)
            && (!UnlockSchedules(k, m) ==> k'.s.current == k.s.current)
            && (k.mutex[m].owner != k.s.current ==> k' == k)
            && (k.s.IsReady(k.s.current) ==> k'.s.IsReady(k.s.current))
  {
    ActivateAllFrame(k.s, k.waiters[m]);
  }

  lemma OthersNotify(k: Kernel, e: Step, t: Tid)
    requires Enabled(k, e) && (e.Signal? || e.Broadcast?) && t in k.s.state && k.s.state[t].Suspended?
    ensures var k', ws := Apply(k, e), k.conds[e.c];
            && t in k'.s.state && k'.inLock == k.inLock && k'.waiters == k.waiters
            && k'.s.state[t] == (if ws != [] && (if e.Signal? then t == ws[0] else t in ws) then Ready else Suspended)
            && k'.conds == k.conds[e.c := if e.Broadcast? || ws == [] then [] else ws[1..]]
  {
    if e.Broadcast? {
      ActivateAllFrame(k.s, k.conds[e.c]);
    }
  }

  lemma OthersElse(k: Kernel, e: Step, t: Tid)
    requires Enabled(k, e) && !e.Unlock? && !e.CondWait? && !e.Signal? && !e.Broadcast?
    requires t in k.s.state && k.s.state[t].Suspended? && e != Step.Wake(t)
    ensures var k', t0 := Apply(k, e), k.s.current;
            && t in k'.s.state && k'.s.state[t] == Suspended && k'.conds == k.conds
            && (t in k.inLock ==> t in k'.inLock && k'.inLock[t] == k.inLock[t])
            && |k'.waiters| == |k.waiters|
            && (forall m :: 0 <= m < |k.waiters| ==>
                 k'.waiters[m] == k.waiters[m] || k'.waiters[m] == [t0] + k.waiters[m])
  {
    hide Waiting, MutexOk, KnownAll, Top;
  }

  lemma NotAmong(k: Kernel, m: nat, c: nat, t: Tid)
    requires KernelOk(k) && m < |k.waiters| && c < |k.conds| && t in k.conds[c]
    ensures t !in k.waiters[m]
  {
    assert (k.waiters + k.conds)[m] == k.waiters[m] && (k.waiters + k.conds)[|k.waiters| + c] == k.conds[c];
  }

  lemma OneCondition(k: Kernel, c: nat, d: nat, t: Tid)
    requires KernelOk(k) && c < |k.conds| && d < |k.conds| && t in k.conds[c]
    ensures d != c ==> t !in k.conds[d]
    ensures Distinct(k.conds[c])
  {
    var lists := k.waiters + k.conds;
    assert lists[|k.waiters| + c] == k.conds[c] && lists[|k.waiters| + d] == k.conds[d];
    assert ListOk(lists[|k.waiters| + c], k.s.state);
  }

  /**
   No wake-up is lost: from the step of the wait on the caller sleeps on the condition, through whatever other threads
   do, until the first broadcast or the first signal that finds it in front; and that one wakes it.
   */
  lemma {:induction false} NoLostWakeup(ks: seq<Kernel>, es: seq<Step>, i: nat, j: nat, c: nat, m: nat)
    requires Interleaving(ks, es) && KernelOk(ks[0]) && i < j < |ks|
    requires es[i] == CondWait(c, m) && m < |ks[i].mutex| && ks[i].mutex[m].owner == ks[i].s.current
    requires forall h :: i < h < j ==> !Wakes(ks[h], es[h], c, ks[i].s.current)
    ensures SleepsOn(ks[j], c, m, ks[i].s.current)
    ensures j < |es| && Wakes(ks[j], es[j], c, ks[i].s.current) ==> Awake(ks[j + 1], ks[i].s.current)
  {
    hide Apply, KernelOk, Enabled, Moves, SleepsOn, QueuesFor, Enters, Drops, Wakes, Awake;
    var t := ks[i].s.current;
    EveryInterleaving(ks, es, j - 1);
    EveryInterleaving(ks, es, j);
    if j == i + 1 {
      SleepBegins(ks[i], c, m);
    } else {
      NoLostWakeup(ks, es, i, j - 1, c, m);
      SleepGoesOn(ks[j - 1], es[j - 1], c, m, t);
    }
    if j < |es| {
      SleepGoesOn(ks[j], es[j], c, m, t);
    }
  }

  // ----- a waiter of a mutex is woken by the release

  /** Thread t sleeps in the lock loop of m. */
  ghost predicate QueuesFor(k: Kernel, m: nat, t: Tid) {
    m < |k.waiters| && t in k.waiters[m] && t in k.s.state && k.s.state[t].Suspended? && Retaking(k, m, t)
  }

  lemma QueueBegins(k: Kernel, m: nat)
    requires Enters(k, Lock(m), m)
    ensures QueuesFor(Apply(k, Lock(m)), m, k.s.current)
  {
  }

  lemma QueueGoesOn(k: Kernel, e: Step, m: nat, t: Tid)
    requires Enabled(k, e) && QueuesFor(k, m, t)
    ensures if Drops(k, e, m) then Awake(Apply(k, e), t) && Retaking(Apply(k, e), m, t)
            else QueuesFor(Apply(k, e), m, t)
  {
    assert (k.waiters + k.conds)[m] == k.waiters[m];
    if e.Unlock? || e.CondWait? {
      OneMutex(k, m, e.m, t);
      OthersUnlock(k, e, t);
      StepOk(k, e);
      hide Apply, Allowed;
      if Drops(k, e, m) {
        ReadyNotWaiting(Apply(k, e), t);
      }
    } else if e.Signal? || e.Broadcast? {
      NotSleeping(k, m, e.c, t);
      OthersNotify(k, e, t);
    } else {
      OthersElse(k, e, t);
    }
  }

  lemma OneMutex(k: Kernel, m: nat, n: nat, t: Tid)
    requires KernelOk(k) && m < |k.waiters| && n < |k.waiters| && t in k.waiters[m]
    ensures n != m ==> t !in k.waiters[n]
  {
    assert (k.waiters + k.conds)[m] == k.waiters[m] && (k.waiters + k.conds)[n] == k.waiters[n];
  }

  lemma NotSleeping(k: Kernel, m: nat, c: nat, t: Tid)
    requires KernelOk(k) && m < |k.waiters| && c < |k.conds| && t in k.waiters[m]
    ensures t !in k.conds[c]
  {
    if t in k.conds[c] {
      NotAmong(k, m, c, t);
    }
  }

  /** A thread that blocks on a mutex sleeps in its list until the first release, and that one wakes it. */
  lemma {:induction false} NoLostRelease(ks: seq<Kernel>, es: seq<Step>, i: nat, j: nat, m: nat)
    requires Interleaving(ks, es) && KernelOk(ks[0]) && i < j < |ks|
    requires es[i] == Lock(m) && Enters(ks[i], es[i], m)
    requires forall h :: i < h < j ==> !Drops(ks[h], es[h], m)
    ensures QueuesFor(ks[j], m, ks[i].s.current)
    ensures j < |es| && Drops(ks[j], es[j], m) ==> Awake(ks[j + 1], ks[i].s.current)
  {
    hide Apply, KernelOk, Enabled, Moves, SleepsOn, QueuesFor, Enters, Drops, Wakes, Awake;
    var t := ks[i].s.current;
    EveryInterleaving(ks, es, j - 1);
    EveryInterleaving(ks, es, j);
    if j == i + 1 {
      QueueBegins(ks[i], m);
    } else {
      NoLostRelease(ks, es, i, j - 1, m);
      QueueGoesOn(ks[j - 1], es[j - 1], m, t);
    }
    if j < |es| {
      QueueGoesOn(ks[j], es[j], m, t);
    }
  }

  // ----- nobody is forgotten

  /** A thread in a call is ready or on a list, and a listed thread is in the call that put it there. */
  ghost predicate PlaceOk(k: Kernel, t: Tid) {
    && (t in k.inLock ==> k.s.IsReady(t) || Listed(k.waiters + k.conds, t))
    && (Listed(k.waiters + k.conds, t) ==> t in k.inLock)
    && (forall m :: 0 <= m < |k.waiters| && t in k.waiters[m] ==> Retaking(k, m, t))
  }

  lemma {:induction false} ListedEither(a: seq<seq<Tid>>, b: seq<seq<Tid>>, t: Tid)
    ensures Listed(a + b, t) <==> Listed(a, t) || Listed(b, t)
  {
    if Listed(a + b, t) {
      var i :| 0 <= i < |a + b| && t in (a + b)[i];
      assert i < |a| ==> t in a[i];
      assert i >= |a| ==> t in b[i - |a|];
    }
    if Listed(a, t) {
      var i :| 0 <= i < |a| && t in a[i];
      assert t in (a + b)[i];
    }
    if Listed(b, t) {
      var i :| 0 <= i < |b| && t in b[i];
      assert t in (a + b)[|a| + i];
    }
  }

  // Only the running thread joins a list, and nobody but it enters or leaves a call.
  lemma OthersStayPut(k: Kernel, e: Step, t: Tid)
    requires Enabled(k, e) && (t != k.s.current || e.Wake?)
    ensures var k' := Apply(k, e);
            && (t in k'.inLock <==> t in k.inLock) && (t in k.inLock ==> k'.inLock[t] == k.inLock[t])
            && |k'.waiters| == |k.waiters| && |k'.conds| == |k.conds|
            && (forall m :: 0 <= m < |k.waiters| && t in k'.waiters[m] ==> t in k.waiters[m])
            && (forall c :: 0 <= c < |k.conds| && t in k'.conds[c] ==> t in k.conds[c])
  {
    hide Ok, InRange, KnownAll, Waiting, MutexOk;
    if e.CondWait? {
      WaitersAfterUnlock(k, e.m);
      hide UnlockStep, UnlockSchedules;
    }
  }

  lemma WaitersAfterUnlock(k: Kernel, m: nat)
    requires KernelOk(k) && m < |k.mutex|
    ensures var k' := UnlockStep(k, m).0;
            && k'.conds == k.conds && k'.inLock == k.inLock
            && (k'.waiters == k.waiters || k'.waiters == k.waiters[m := []])
  {
  }

  // The running thread joins a list only by getting stuck, and otherwise is in no call afterwards.
  lemma RunnerPlaced(k: Kernel, e: Step)
    requires Enabled(k, e) && !e.Wake? && !(e.Lock? && LockStep(k, e.m).1.Blocked?)
    requires !(e.CondWait? && k.mutex[e.m].owner == k.s.current)
    ensures k.s.current !in Apply(k, e).inLock && !Listed(Apply(k, e).waiters + Apply(k, e).conds, k.s.current)
  {
    var t, k' := k.s.current, Apply(k, e);
    ReadyNotWaiting(k, t);
    ListedEither(k.waiters, k.conds, t);
    ListedEither(k'.waiters, k'.conds, t);
    assert forall m :: 0 <= m < |k.waiters| ==> t !in k.waiters[m];
    assert forall c :: 0 <= c < |k.conds| ==> t !in k.conds[c];
  }

  lemma SleeperPlaced(k: Kernel, c: nat, m: nat, t: Tid)
    requires KernelOk(k) && SleepsOn(k, c, m, t)
    ensures PlaceOk(k, t)
  {
    assert (k.waiters + k.conds)[|k.waiters| + c] == k.conds[c];
    forall n | 0 <= n < |k.waiters|
      ensures t !in k.waiters[n]
    {
      NotAmong(k, n, c, t);
    }
  }

  lemma QueuerPlaced(k: Kernel, m: nat, t: Tid)
    requires KernelOk(k) && QueuesFor(k, m, t)
    ensures PlaceOk(k, t)
  {
    assert (k.waiters + k.conds)[m] == k.waiters[m];
    forall n | 0 <= n < |k.waiters| && n != m
      ensures t !in k.waiters[n]
    {
      OneMutex(k, m, n, t);
    }
  }

  lemma UnlistedPlaced(k: Kernel, t: Tid)
    requires !Listed(k.waiters + k.conds, t) && (t in k.inLock ==> k.s.IsReady(t))
    ensures PlaceOk(k, t)
  {
    ListedEither(k.waiters, k.conds, t);
  }

  // A thread on a list when the step is taken.
  lemma ListedPlaceKept(k: Kernel, e: Step, t: Tid)
    requires Enabled(k, e) && PlaceOk(k, t) && Listed(k.waiters + k.conds, t)
    ensures PlaceOk(Apply(k, e), t)
  {
    var lists := k.waiters + k.conds;
    var i :| 0 <= i < |lists| && t in lists[i];
    assert ListOk(lists[i], k.s.state);
    StepOk(k, e);
    var k', m := Apply(k, e), k.inLock[t];
    hide KernelOk, Apply, Enabled, Drops, Wakes;
    if i < |k.waiters| {
      assert QueuesFor(k, i, t);
      QueueGoesOn(k, e, i, t);
      if QueuesFor(k', i, t) {
        QueuerPlaced(k', i, t);
      } else {
        UnlistedPlaced(k', t);
      }
    } else {
      var c := i - |k.waiters|;
      assert SleepsOn(k, c, m, t);
      SleepGoesOn(k, e, c, m, t);
      if SleepsOn(k', c, m, t) {
        SleeperPlaced(k', c, m, t);
      } else {
        UnlistedPlaced(k', t);
      }
    }
  }

  // The running thread.
  lemma RunnerPlaceKept(k: Kernel, e: Step)
    requires Enabled(k, e) && !e.Wake?
    ensures PlaceOk(Apply(k, e), k.s.current)
  {
    var t := k.s.current;
    StepOk(k, e);
    if e.Lock? && LockStep(k, e.m).1.Blocked? {
      QueueBegins(k, e.m);
      QueuerPlaced(Apply(k, e), e.m, t);
    } else if e.CondWait? && k.mutex[e.m].owner == t {
      SleepBegins(k, e.c, e.m);
      SleeperPlaced(Apply(k, e), e.c, e.m, t);
    } else {
      RunnerPlaced(k, e);
      UnlistedPlaced(Apply(k, e), t);
    }
  }

  // A thread on no list that is not the one running.
  lemma OtherPlaceKept(k: Kernel, e: Step, t: Tid)
    requires Enabled(k, e) && PlaceOk(k, t) && !Listed(k.waiters + k.conds, t) && (t != k.s.current || e.Wake?)
    ensures PlaceOk(Apply(k, e), t)
  {
    OthersStayPut(k, e, t);
    if t in k.inLock {
      assert k.s.Known(t);
      OthersGoOn(k, e, t);
    }
    hide Apply;
    ListedEither(k.waiters, k.conds, t);
    ListedEither(Apply(k, e).waiters, Apply(k, e).conds, t);
    UnlistedPlaced(Apply(k, e), t);
  }

  /** At first nobody is in a call, and creating a thread changes nothing for the others. */
  lemma PlacesAtFirst(k: Kernel, t: Tid)
    requires k.inLock == map[] && (forall m :: 0 <= m < |k.waiters| ==> k.waiters[m] == [])
    requires forall c :: 0 <= c < |k.conds| ==> k.conds[c] == []
    ensures PlaceOk(k, t)
  {
    ListedEither(k.waiters, k.conds, t);
  }

  lemma PlacesAfterCreation(k: Kernel, u: Tid, prio: nat, t: Tid)
    requires KernelOk(k) && !k.s.Known(u) && prio < PRIORITIES && PlaceOk(k, t)
    ensures PlaceOk(CreateStep(k, u, prio), t)
  {
    var k' := CreateStep(k, u, prio);
    assert k'.s.IsReady(t) || !k.s.IsReady(t);
  }

  /** In every run, each thread inside a call is ready to go on, or sleeps on the list from which its call is woken. */
  lemma {:induction false} NobodyForgotten(ks: seq<Kernel>, es: seq<Step>, i: nat, t: Tid)
    requires Interleaving(ks, es) && KernelOk(ks[0]) && PlaceOk(ks[0], t) && i < |ks|
    ensures PlaceOk(ks[i], t)
  {
    hide KernelOk, Enabled, Moves, Apply, PlaceOk;
    if i > 0 {
      NobodyForgotten(ks, es, i - 1, t);
      EveryInterleaving(ks, es, i - 1);
      PlaceKept(ks[i - 1], es[i - 1], t);
    }
  }

  lemma PlaceKept(k: Kernel, e: Step, t: Tid)
    requires Enabled(k, e) && PlaceOk(k, t)
    ensures PlaceOk(Apply(k, e), t)
  {
    hide KernelOk, Apply, PlaceOk;
    if !e.Wake? && t == k.s.current {
      RunnerPlaceKept(k, e);
    } else if Listed(k.waiters + k.conds, t) {
      ListedPlaceKept(k, e, t);
    } else {
      OtherPlaceKept(k, e, t);
    }
  }
}
