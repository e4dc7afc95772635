/**
 Mutexes and condition variables (server/core/port/pthread.c), as steps from one
 `scheduling()` call to the next. Sections 11.3, 11.4 and 13.6 of IEEE Std 1003.1.

 Only one thread executes at a time and a step is not interrupted; a thread that
 blocks in pthread_mutex_lock_sys takes the same step again when it is next run,
 since it loops on the owner.
 */
module MutexSteps {
  import opened Links
  import opened ReadyQueues
  import opened Scheduler

  datatype MutexType = Normal | Recursive | ErrorCheck

  datatype Mutex = Mutex(kind: MutexType, protect: bool, ceiling: nat, ownerPrio: nat, owner: Tid, counter: int)

  /**
   The scheduler's state, the mutexes, the threads waiting for each mutex and condition, and where threads are
   inside a call: inLock[t] is the mutex that t goes on to take in the loop of pthread_mutex_lock_sys.
   */
  datatype Kernel = Kernel(s: Sched, mutex: seq<Mutex>, waiters: seq<seq<Tid>>, conds: seq<seq<Tid>>,
                           inLock: map<Tid, nat>)

  datatype Result = Done | Blocked | EDEADLK | EPERM | EBUSY

  // ----- the steps

  /** The caller becomes owner; under PRIO_PROTECT it is raised to the ceiling. */
  function Acquire(k: Kernel, m: nat, counter: int): Kernel
    requires Shaped(k) && m < |k.mutex|
  {
    var t, M := k.s.current, k.mutex[m];
    var M1 := M.(owner := t, counter := counter);
    if M.protect then
      var p := k.s.prio[t];
      k.(mutex := k.mutex[m := M1.(ownerPrio := p)],
         s := if p > M.ceiling then Schedule(ChangePrio(k.s, t, M.ceiling)) else k.s)
    else
      k.(mutex := k.mutex[m := M1])
  }

  /** One round of pthread_mutex_lock_sys. */
  function LockStep(k: Kernel, m: nat): (Kernel, Result)
    requires Shaped(k) && m < |k.mutex|
  {
    var t, M := k.s.current, k.mutex[m];
    var k1 := k.(inLock := k.inLock - {t});
    if M.owner == NULL then (Acquire(k1, m, 1), Done)
    else if M.owner == t && M.kind.ErrorCheck? then (k1, EDEADLK)
    else if M.owner == t && M.kind.Recursive? then (k1.(mutex := k.mutex[m := M.(counter := M.counter + 1)]), Done)
    else
      (k.(s := Schedule(Suspend(k.s, t)), waiters := k.waiters[m := [t] + k.waiters[m]], inLock := k.inLock[t := m]),
       Blocked)
  }

  /** pthread_mutex_trylock_sys; the counter is left alone by a first acquisition. */
  function TryLockStep(k: Kernel, m: nat): (Kernel, Result)
    requires Shaped(k) && m < |k.mutex|
  {
    var t, M := k.s.current, k.mutex[m];
    if M.owner == NULL then (Acquire(k, m, M.counter), Done)
    else if M.owner == t && M.kind.Recursive? then (k.(mutex := k.mutex[m := M.(counter := M.counter + 1)]), Done)
    else (k, EBUSY)
  }

  ghost predicate KnownAll(ts: seq<Tid>, s: Sched) {
    forall t :: t in ts ==> s.Known(t)
  }

  ghost predicate InRange(s: Sched) {
    |s.queues| == PRIORITIES && forall t :: t in s.prio ==> s.prio[t] < PRIORITIES
  }

  /** activate_thread for each thread of a list, front first. */
  function ActivateAll(s: Sched, ts: seq<Tid>): Sched
    requires InRange(s) && KnownAll(ts, s)
    decreases ts
  {
    if ts == [] then s
    else
      ActivateFrame(s, ts);
      ActivateAll(Activate(s, ts[0]), ts[1..])
  }

  lemma ActivateFrame(s: Sched, ts: seq<Tid>)
    requires InRange(s) && KnownAll(ts, s) && ts != []
    ensures ts[0] in ts && s.Known(ts[0]) && s.prio[ts[0]] < PRIORITIES
    ensures var s' := Activate(s, ts[0]); InRange(s') && KnownAll(ts[1..], s')
  {
    assert ts[0] in ts;
    assert forall t :: t in ts[1..] ==> t in ts;
  }

  /** The last unlock: waiters are woken, the mutex is free, the owner gets its old priority back. */
  function Release(k: Kernel, m: nat): Kernel
    requires Shaped(k) && m < |k.mutex|
  {
    var t, M := k.s.current, k.mutex[m];
    var s1 := ActivateAll(k.s, k.waiters[m]);
    ActivateAllFrame(k.s, k.waiters[m]);
    k.(mutex := k.mutex[m := M.(owner := NULL, counter := 0)],
       waiters := k.waiters[m := []],
       s := if M.protect && M.ownerPrio != s1.prio[t] then Schedule(ChangePrio(s1, t, M.ownerPrio)) else s1)
  }

  /** pthread_mutex_unlock_sys */
  function UnlockStep(k: Kernel, m: nat): (Kernel, Result)
    requires Shaped(k) && m < |k.mutex|
  {
    var t, M := k.s.current, k.mutex[m];
    if M.owner == NULL then (k, if M.kind.ErrorCheck? then EPERM else Done)
    else if M.owner != t then (k, EPERM)
    else if M.kind.Recursive? && M.counter - 1 > 0 then (k.(mutex := k.mutex[m := M.(counter := M.counter - 1)]), Done)
    else (Release(k, m), Done)
  }

  /** The unlock inside pthread_cond_wait_sys reschedules before the caller is enqueued. */
  predicate UnlockSchedules(k: Kernel, m: nat)
    requires Shaped(k) && m < |k.mutex|
  {
    var M := k.mutex[m];
    M.protect && M.ownerPrio != k.s.prio[k.s.current] && !(M.kind.Recursive? && M.counter - 1 > 0)
  }

  /** pthread_cond_wait_sys up to its scheduling() call; the mutex is then taken back with LockStep. */
  function CondWaitStep(k: Kernel, c: nat, m: nat): (Kernel, Result)
    requires Shaped(k) && m < |k.mutex| && c < |k.conds| && !UnlockSchedules(k, m)
  {
    var t := k.s.current;
    if k.mutex[m].owner != t then (k, EPERM)
    else
      UnlockShaped(k, m);
      var k1 := UnlockStep(k, m).0;
      (k1.(s := Schedule(Suspend(k1.s, t)), conds := k1.conds[c := [t] + k1.conds[c]], inLock := k1.inLock[t := m]),
       Blocked)
  }

  /** pthread_cond_signal_sys */
  function SignalStep(k: Kernel, c: nat): Kernel
    requires Shaped(k) && c < |k.conds|
  {
    var ws := k.conds[c];
    k.(s := Schedule(if ws == [] then k.s else Activate(k.s, ws[0])),
       conds := k.conds[c := if ws == [] then [] else ws[1..]])
  }

  /** pthread_cond_broadcast_sys */
  function BroadcastStep(k: Kernel, c: nat): Kernel
    requires Shaped(k) && c < |k.conds|
  {
    k.(s := Schedule(ActivateAll(k.s, k.conds[c])), conds := k.conds[c := []])
  }

  /** pthread_create_sys: a registered thread gets its priority, becomes ready, and the scheduler runs. */
  function CreateStep(k: Kernel, t: Tid, prio: nat): Kernel
    requires Shaped(k) && prio < PRIORITIES
  {
    k.(s := Start(Register(k.s, t), t, prio))
  }

  // ----- shapes

  /** Every thread named anywhere exists, and every priority has a queue. */
  ghost predicate Shaped(k: Kernel) {
    && InRange(k.s) && k.s.Known(k.s.current)
    && |k.waiters| == |k.mutex|
    && (forall m :: 0 <= m < |k.mutex| ==> k.mutex[m].ceiling < PRIORITIES && k.mutex[m].ownerPrio < PRIORITIES)
    && (forall m :: 0 <= m < |k.waiters| ==> KnownAll(k.waiters[m], k.s))
    && (forall c :: 0 <= c < |k.conds| ==> KnownAll(k.conds[c], k.s))
  }

  lemma {:induction false} ActivateAllFrame(s: Sched, ts: seq<Tid>)
    requires InRange(s) && KnownAll(ts, s)
    ensures var s' := ActivateAll(s, ts);
            && s'.prio == s.prio && s'.state.Keys == s.state.Keys && InRange(s')
            && s'.current == s.current && s'.idle == s.idle && s'.nesting == s.nesting
            && (forall t :: t in s.state ==>
                 s'.state[t] == if t in ts && s.state[t].Suspended? then Ready else s.state[t])
    decreases ts
  {
    if ts != [] {
      ActivateFrame(s, ts);
      ActivateAllFrame(Activate(s, ts[0]), ts[1..]);
    }
  }

  lemma UnlockShaped(k: Kernel, m: nat)
    requires Shaped(k) && m < |k.mutex|
    ensures var k' := UnlockStep(k, m).0;
            k'.s.state.Keys == k.s.state.Keys && k'.s.prio.Keys == k.s.prio.Keys && |k'.conds| == |k.conds|
  {
    ActivateAllFrame(k.s, k.waiters[m]);
  }

  // ----- the invariant of every interleaving

  ghost predicate ListOk(ts: seq<Tid>, state: map<Tid, ThreadState>) {
    Distinct(ts) && forall t :: t in ts ==> t in state && state[t].Suspended?
  }

  /** Every waiting thread is suspended and waits in one place. */
  ghost predicate Waiting(lists: seq<seq<Tid>>, state: map<Tid, ThreadState>) {
    && (forall i :: 0 <= i < |lists| ==> ListOk(lists[i], state))
    && (forall i, j, t :: 0 <= i < |lists| && 0 <= j < |lists| && t in lists[i] && t in lists[j] ==> i == j)
  }

  ghost predicate MutexOk(k: Kernel, m: nat)
    requires m < |k.mutex| && m < |k.waiters|
  {
    && (k.mutex[m].owner != NULL ==> k.s.Known(k.mutex[m].owner))
    && (k.waiters[m] != [] ==> k.mutex[m].owner != NULL)
    && (k.mutex[m].owner == NULL ==> k.mutex[m].counter == 0)
  }

  /** A waiter implies an owner, and each waiter is suspended on one list of one mutex or condition. */
  ghost predicate KernelOk(k: Kernel) {
    && Ok(k.s) && k.s.nesting == 0 && Shaped(k)
    && Waiting(k.waiters + k.conds, k.s.state)
    && forall m :: 0 <= m < |k.mutex| ==> MutexOk(k, m)
  }

  // What remains to be shown of the invariant once scheduler, lists and mutexes are in order.
  lemma KernelIsOk(k: Kernel)
    requires Ok(k.s) && k.s.nesting == 0 && |k.waiters| == |k.mutex|
    requires Waiting(k.waiters + k.conds, k.s.state)
    requires forall m :: 0 <= m < |k.mutex| ==> k.mutex[m].ceiling < PRIORITIES && k.mutex[m].ownerPrio < PRIORITIES
    requires forall m :: 0 <= m < |k.mutex| ==> MutexOk(k, m)
    ensures KernelOk(k)
  {
    var lists := k.waiters + k.conds;
    forall m | 0 <= m < |k.waiters|
      ensures KnownAll(k.waiters[m], k.s)
    {
      assert ListOk(lists[m], k.s.state);
    }
    forall c | 0 <= c < |k.conds|
      ensures KnownAll(k.conds[c], k.s)
    {
      assert ListOk(lists[|k.waiters| + c], k.s.state);
    }
  }

  // Where threads are inside calls does not matter to the invariant.
  lemma PlacesDoNotMatter(k: Kernel, inLock: map<Tid, nat>)
    requires KernelOk(k)
    ensures KernelOk(k.(inLock := inLock))
  {
    hide Ok, Waiting, KnownAll, ListOk;
    var k' := k.(inLock := inLock);
    forall m | 0 <= m < |k.mutex|
      ensures MutexOk(k', m)
    {
      assert MutexOk(k, m);
    }
    KernelIsOk(k');
  }

  lemma Enqueued(lists: seq<seq<Tid>>, state: map<Tid, ThreadState>, i: nat, t: Tid)
    requires Waiting(lists, state) && i < |lists| && !Listed(lists, t)
    ensures Waiting(lists[i := [t] + lists[i]], state[t := Suspended])
  {
  }

  // Threads leave the front of list i and become ready; the rest keeps its state.
  lemma Dequeued(lists: seq<seq<Tid>>, state: map<Tid, ThreadState>, i: nat, n: nat, state': map<Tid, ThreadState>)
    requires Waiting(lists, state) && i < |lists| && n <= |lists[i]|
    requires forall x :: x in state && x !in lists[i][..n] ==> x in state' && state'[x] == state[x]
    ensures Waiting(lists[i := lists[i][n..]], state')
  {
  }

  lemma ReadyNotWaiting(k: Kernel, t: Tid)
    requires KernelOk(k) && k.s.IsReady(t)
    ensures !Listed(k.waiters + k.conds, t)
  {
  }

  lemma {:induction false} ActivateAllOk(s: Sched, ts: seq<Tid>)
    requires Ok(s) && KnownAll(ts, s)
    ensures InRange(s) && Ok(ActivateAll(s, ts))
    decreases ts
  {
    if ts != [] {
      ActivateFrame(s, ts);
      ActivateOk(s, ts[0]);
      ActivateAllOk(Activate(s, ts[0]), ts[1..]);
    }
  }

  // A change of priority followed by scheduling.
  lemma ReprioritizedOk(s: Sched, t: Tid, prio: nat)
    requires Ok(s) && s.Known(t) && prio < PRIORITIES && s.nesting == 0
    ensures Ok(Schedule(ChangePrio(s, t, prio))) && Schedule(ChangePrio(s, t, prio)).nesting == 0
  {
    ChangePrioOk(s, t, prio);
    ScheduleOk(ChangePrio(s, t, prio));
  }

  lemma AcquireOk(k: Kernel, m: nat, counter: int)
    requires KernelOk(k) && m < |k.mutex| && k.mutex[m].owner == NULL
    ensures KernelOk(Acquire(k, m, counter))
  {
    assert k.s.current != NULL;
    hide Ok, Waiting, KnownAll, ListOk;
    assert InRange(k.s);
    var t, M, k' := k.s.current, k.mutex[m], Acquire(k, m, counter);
    if M.protect && k.s.prio[t] > M.ceiling {
      ReprioritizedOk(k.s, t, M.ceiling);
    }
    forall n | 0 <= n < |k'.mutex|
      ensures MutexOk(k', n)
    {
      assert MutexOk(k, n);
    }
    KernelIsOk(k');
  }

  lemma LockOk(k: Kernel, m: nat)
    requires KernelOk(k) && m < |k.mutex| && k.s.IsReady(k.s.current)
    ensures KernelOk(LockStep(k, m).0)
  {
    hide Ok, Waiting, KnownAll, ListOk;
    assert InRange(k.s);
    var t, M, k' := k.s.current, k.mutex[m], LockStep(k, m).0;
    if M.owner == NULL {
      PlacesDoNotMatter(k, k.inLock - {t});
      AcquireOk(k.(inLock := k.inLock - {t}), m, 1);
    } else {
      ReadyNotWaiting(k, t);
      Enqueued(k.waiters + k.conds, k.s.state, m, t);
      assert k.waiters[m := [t] + k.waiters[m]] + k.conds == (k.waiters + k.conds)[m := [t] + (k.waiters + k.conds)[m]];
      SuspendOk(k.s, t);
      ScheduleOk(Suspend(k.s, t));
      forall n | 0 <= n < |k'.mutex|
        ensures MutexOk(k', n)
      {
        assert MutexOk(k, n);
      }
      KernelIsOk(k');
    }
  }

  lemma TryLockOk(k: Kernel, m: nat)
    requires KernelOk(k) && m < |k.mutex|
    ensures KernelOk(TryLockStep(k, m).0)
  {
    hide Ok, Waiting, KnownAll, ListOk;
    assert InRange(k.s);
    if k.mutex[m].owner == NULL {
      AcquireOk(k, m, k.mutex[m].counter);
    } else {
      var k' := TryLockStep(k, m).0;
      forall n | 0 <= n < |k'.mutex|
        ensures MutexOk(k', n)
      {
        assert MutexOk(k, n);
      }
      KernelIsOk(k');
    }
  }

  lemma ReleaseOk(k: Kernel, m: nat)
    requires KernelOk(k) && m < |k.mutex|
    ensures KernelOk(Release(k, m))
  {
    hide Ok, Waiting, KnownAll, ListOk;
    assert InRange(k.s);
    var t, M, k' := k.s.current, k.mutex[m], Release(k, m);
    var s1 := ActivateAll(k.s, k.waiters[m]);
    ActivateAllOk(k.s, k.waiters[m]);
    ActivateAllFrame(k.s, k.waiters[m]);
    if M.protect && M.ownerPrio != s1.prio[t] {
      ReprioritizedOk(s1, t, M.ownerPrio);
    }
    var lists, n := k.waiters + k.conds, |k.waiters[m]|;
    assert lists[m][..n] == k.waiters[m] && lists[m][n..] == [];
    Dequeued(lists, k.s.state, m, n, k'.s.state);
    assert k'.waiters + k'.conds == lists[m := []];
    forall n | 0 <= n < |k'.mutex|
      ensures MutexOk(k', n)
    {
      assert MutexOk(k, n);
    }
    KernelIsOk(k');
  }

  lemma UnlockOk(k: Kernel, m: nat)
    requires KernelOk(k) && m < |k.mutex|
    ensures KernelOk(UnlockStep(k, m).0)
  {
    hide Ok, Waiting, KnownAll, ListOk;
    assert InRange(k.s);
    ReleaseOk(k, m);
    var k' := UnlockStep(k, m).0;
    if k' != Release(k, m) {
      forall n | 0 <= n < |k'.mutex|
        ensures MutexOk(k', n)
      {
        assert MutexOk(k, n);
      }
      KernelIsOk(k');
    }
  }

  lemma CondWaitOk(k: Kernel, c: nat, m: nat)
    requires KernelOk(k) && m < |k.mutex| && c < |k.conds| && !UnlockSchedules(k, m) && k.s.IsReady(k.s.current)
    ensures KernelOk(CondWaitStep(k, c, m).0)
  {
    hide Ok, Waiting, KnownAll, ListOk;
    assert InRange(k.s);
    var t := k.s.current;
    if k.mutex[m].owner == t {
      UnlockOk(k, m);
      ActivateAllFrame(k.s, k.waiters[m]);
      var k1, k' := UnlockStep(k, m).0, CondWaitStep(k, c, m).0;
      ReadyNotWaiting(k1, t);
      var lists, i := k1.waiters + k1.conds, |k1.waiters| + c;
      Enqueued(lists, k1.s.state, i, t);
      assert k'.waiters + k'.conds == lists[i := [t] + lists[i]];
      SuspendOk(k1.s, t);
      ScheduleOk(Suspend(k1.s, t));
      forall n | 0 <= n < |k'.mutex|
        ensures MutexOk(k', n)
      {
        assert MutexOk(k1, n);
      }
      KernelIsOk(k');
    }
  }

  lemma SignalOk(k: Kernel, c: nat)
    requires KernelOk(k) && c < |k.conds|
    ensures KernelOk(SignalStep(k, c))
  {
    hide Ok, Waiting, KnownAll, ListOk;
    var ws, lists, i := k.conds[c], k.waiters + k.conds, |k.waiters| + c;
    var k' := SignalStep(k, c);
    if ws != [] {
      ActivateFrame(k.s, ws);
      ActivateOk(k.s, ws[0]);
      ScheduleOk(Activate(k.s, ws[0]));
      assert lists[i][..1] == [ws[0]] && ws[0] in ws;
      Dequeued(lists, k.s.state, i, 1, k'.s.state);
      assert k'.waiters + k'.conds == lists[i := ws[1..]];
    } else {
      ScheduleOk(k.s);
      assert k'.conds == k.conds;
    }
    forall n | 0 <= n < |k.mutex|
      ensures MutexOk(k', n)
    {
      assert MutexOk(k, n);
    }
    KernelIsOk(k');
  }

  lemma BroadcastOk(k: Kernel, c: nat)
    requires KernelOk(k) && c < |k.conds|
    ensures KernelOk(BroadcastStep(k, c))
  {
    hide Ok, Waiting, KnownAll, ListOk;
    var ws, lists, i := k.conds[c], k.waiters + k.conds, |k.waiters| + c;
    ActivateAllFrame(k.s, ws);
    ActivateAllOk(k.s, ws);
    ScheduleOk(ActivateAll(k.s, ws));
    var k' := BroadcastStep(k, c);
    assert lists[i][..|ws|] == ws && lists[i][|ws|..] == [];
    Dequeued(lists, k.s.state, i, |ws|, k'.s.state);
    assert k'.waiters + k'.conds == lists[i := []];
    forall n | 0 <= n < |k.mutex|
      ensures MutexOk(k', n)
    {
      assert MutexOk(k, n);
    }
    KernelIsOk(k');
  }

  /** A thread can be created at any time; it is ready and waits nowhere. */
  lemma CreateOk(k: Kernel, t: Tid, prio: nat)
    requires KernelOk(k) && t != NULL && !k.s.Known(t) && prio < PRIORITIES
    ensures KernelOk(CreateStep(k, t, prio)) && CreateStep(k, t, prio).s.IsReady(t)
  {
    hide Waiting, KnownAll;
    var s1 := Register(k.s, t);
    RegisterOk(k.s, t);
    ChangePrioOk(s1, t, prio);
    var s2 := ChangePrio(s1, t, prio);
    ActivateOk(s2, t);
    ScheduleOk(Activate(s2, t));
    NewcomerNotListed(k.waiters + k.conds, k.s.state, t, CreateStep(k, t, prio).s.state);
    var k' := CreateStep(k, t, prio);
    forall m | 0 <= m < |k.mutex|
      ensures MutexOk(k', m)
    {
      assert MutexOk(k, m);
    }
    hide Ok;
    KernelIsOk(k');
  }

  lemma NewcomerNotListed(lists: seq<seq<Tid>>, state: map<Tid, ThreadState>, t: Tid, state': map<Tid, ThreadState>)
    requires Waiting(lists, state) && t !in state && forall x :: x in state ==> x in state' && state'[x] == state[x]
    ensures Waiting(lists, state')
  {
  }

  // ----- interleavings

  /** Steps of the running thread, and a wake-up from outside such as an expired timer. */
  datatype Step =
    | Lock(m: nat) | TryLock(m: nat) | Unlock(m: nat)
    | CondWait(c: nat, m: nat) | Signal(c: nat) | Broadcast(c: nat)
    | YieldCpu | Sleep | Exit | Create(t: Tid, prio: nat)
    | Wake(t: Tid)

  /**
   What can happen next. No signals: a thread on a waiting list is only woken from that list; and a thread that
   is inside the lock loop of a mutex goes on with that loop.
   */
  ghost predicate Allowed(k: Kernel, e: Step) {
    && (!e.Wake? ==> k.s.IsReady(k.s.current))
    && (!e.Wake? && k.s.current in k.inLock ==> e == Lock(k.inLock[k.s.current]))
    && match e
       case Lock(m) => m < |k.mutex|
       case TryLock(m) => m < |k.mutex|
       case Unlock(m) => m < |k.mutex|
       case CondWait(c, m) => c < |k.conds| && m < |k.mutex| && (Shaped(k) ==> !UnlockSchedules(k, m))
       case Signal(c) => c < |k.conds|
       case Broadcast(c) => c < |k.conds|
       case Wake(t) => k.s.Known(t) && !Listed(k.waiters + k.conds, t)
       case Create(t, prio) => t != NULL && t !in k.s.state && prio <= MIN_SCHED_PRIORITY
       case _ => true
  }

  /** A step that can happen in a kernel that is in order: there the step functions are defined. */
  ghost predicate Enabled(k: Kernel, e: Step) {
    KernelOk(k) && Allowed(k, e)
  }

  ghost function Apply(k: Kernel, e: Step): Kernel
    requires Enabled(k, e)
  {
    match e
    case Lock(m) => LockStep(k, m).0
    case TryLock(m) => TryLockStep(k, m).0
    case Unlock(m) => UnlockStep(k, m).0
    case CondWait(c, m) => CondWaitStep(k, c, m).0
    case Signal(c) => SignalStep(k, c)
    case Broadcast(c) => BroadcastStep(k, c)
    case YieldCpu => k.(s := Yield(k.s))
    case Sleep => k.(s := Schedule(Suspend(k.s, k.s.current)))
    case Exit => k.(s := Schedule(Finish(k.s, k.s.current)))
    case Wake(t) => k.(s := Schedule(Activate(k.s, t)))
    case Create(t, prio) => CreateStep(k, t, prio)
  }

  /** Every step of every thread keeps the invariant. */
  lemma StepOk(k: Kernel, e: Step)
    requires Enabled(k, e)
    ensures KernelOk(Apply(k, e))
  {
    match e
    case Lock(m) => LockOk(k, m);
    case TryLock(m) => TryLockOk(k, m);
    case Unlock(m) => UnlockOk(k, m);
    case CondWait(c, m) => CondWaitOk(k, c, m);
    case Signal(c) => SignalOk(k, c);
    case Broadcast(c) => BroadcastOk(k, c);
    case Create(t, prio) => CreateOk(k, t, prio);
    case _ => OwnStepOk(k, e);
  }

  lemma OwnStepOk(k: Kernel, e: Step)
    requires Enabled(k, e) && (e.YieldCpu? || e.Sleep? || e.Exit? || e.Wake?)
    ensures KernelOk(Apply(k, e))
  {
    OwnSchedule(k, e);
    hide KernelOk, Apply;
    OwnStateOk(k, Apply(k, e), if e.Wake? then e.t else k.s.current);
  }

  // What these steps do to the scheduler, and that they do nothing else.
  lemma OwnSchedule(k: Kernel, e: Step)
    requires Enabled(k, e) && (e.YieldCpu? || e.Sleep? || e.Exit? || e.Wake?)
    ensures var s, t := Apply(k, e).s, if e.Wake? then e.t else k.s.current;
            && Apply(k, e) == k.(s := s) && Ok(s) && s.nesting == 0 && s.state.Keys == k.s.state.Keys
            && forall x :: x in k.s.state && x != t ==> s.state[x] == k.s.state[x]
  {
    hide Waiting, MutexOk, Shaped;
    match e
    case YieldCpu =>
      YieldOk(k.s);
      TailOk(k.s);
      var q := RemoveFrom(k.s.queues, k.s.current);
      ScheduleOk(k.s.(queues := InsertTail(q, k.s.prio[k.s.current], k.s.current)));
    case Sleep =>
      SuspendOk(k.s, k.s.current);
      ScheduleOk(Suspend(k.s, k.s.current));
    case Exit =>
      SuspendOk(k.s, k.s.current);
      ScheduleOk(Finish(k.s, k.s.current));
    case Wake(t) =>
      ActivateOk(k.s, t);
      ScheduleOk(Activate(k.s, t));
  }

  // A step that changes nothing but the scheduler's view of a thread that is not waiting.
  lemma OwnStateOk(k: Kernel, k': Kernel, t: Tid)
    requires KernelOk(k) && k' == k.(s := k'.s) && Ok(k'.s) && k'.s.nesting == 0
    requires k'.s.state.Keys == k.s.state.Keys && forall x :: x in k.s.state && x != t ==> k'.s.state[x] == k.s.state[x]
    requires k.s.IsReady(t) || !Listed(k.waiters + k.conds, t)
    ensures KernelOk(k')
  {
    if k.s.IsReady(t) {
      ReadyNotWaiting(k, t);
    }
    var lists := k.waiters + k.conds;
    forall i | 0 <= i < |lists|
      ensures ListOk(lists[i], k'.s.state)
    {
      assert ListOk(lists[i], k.s.state);
      assert t !in lists[i];
    }
    forall m | 0 <= m < |k.mutex|
      ensures MutexOk(k', m)
    {
      assert MutexOk(k, m);
    }
    KernelIsOk(k');
  }

  /**
   A run: what happens is allowed, and a kernel in order changes by the step. Nothing is assumed of the later
   kernels; EveryInterleaving shows that they are in order too.
   */
  ghost predicate Interleaving(ks: seq<Kernel>, es: seq<Step>) {
    |ks| == |es| + 1 && forall i :: 0 <= i < |es| ==> Moves(ks, es, i)
  }

  ghost predicate Moves(ks: seq<Kernel>, es: seq<Step>, i: nat)
    requires i < |es| && i + 1 < |ks|
  {
    Allowed(ks[i], es[i]) && (KernelOk(ks[i]) ==> ks[i + 1] == Apply(ks[i], es[i]))
  }

  /** In every signal-free interleaving a waiter implies an owner and is suspended on one list. */
  lemma {:induction false} EveryInterleaving(ks: seq<Kernel>, es: seq<Step>, i: nat)
    requires Interleaving(ks, es) && KernelOk(ks[0]) && i < |ks|
    ensures KernelOk(ks[i])
    ensures i < |es| ==> Enabled(ks[i], es[i]) && ks[i + 1] == Apply(ks[i], es[i])
  {
    hide Allowed, KernelOk, Apply;
    if i > 0 {
      EveryInterleaving(ks, es, i - 1);
      StepOk(ks[i - 1], es[i - 1]);
    }
    assert i < |es| ==> Moves(ks, es, i);
  }

  // ----- what a step changes

  /** The step takes m, which is free. */
  ghost predicate Takes(k: Kernel, e: Step, m: nat) {
    m < |k.mutex| && k.mutex[m].owner == NULL && (e == Lock(m) || e == TryLock(m))
  }

  /** The step is the owner's last unlock of m, alone or inside pthread_cond_wait_sys. */
  ghost predicate Drops(k: Kernel, e: Step, m: nat) {
    && m < |k.mutex| && k.mutex[m].owner == k.s.current != NULL
    && !(k.mutex[m].kind.Recursive? && k.mutex[m].counter > 1)
    && (e == Unlock(m) || (e.CondWait? && e.m == m))
  }

  /** The step takes the running thread out of the ready structure. */
  ghost predicate Stops(k: Kernel, e: Step)
    requires Enabled(k, e)
  {
    match e
    case Lock(m) => LockStep(k, m).1.Blocked?
    case CondWait(c, m) => CondWaitStep(k, c, m).1.Blocked?
    case Sleep => true
    case Exit => true
    case _ => false
  }

  // Only the running thread can stop being ready, and only its priority can change.
  lemma OthersGoOn(k: Kernel, e: Step, u: Tid)
    requires Enabled(k, e) && k.s.Known(u)
    ensures GoesOn(k, e, u)
  {
    hide GoesOn, Apply, Stops;
    match e
    case Lock(m) => LockGoesOn(k, e, u);
    case TryLock(m) => LockGoesOn(k, e, u);
    case Unlock(m) => UnlockGoesOn(k, e, u);
    case CondWait(c, m) => UnlockGoesOn(k, e, u);
    case _ => RestGoesOn(k, e, u);
  }

  /** Only the running thread can stop being ready, and only its priority can change. */
  ghost predicate GoesOn(k: Kernel, e: Step, u: Tid)
    requires Enabled(k, e) && k.s.Known(u)
  {
    var k' := Apply(k, e);
    && k'.s.Known(u)
    && (k.s.IsReady(u) && !(u == k.s.current && Stops(k, e)) ==> k'.s.IsReady(u))
    && (u != k.s.current ==> k'.s.prio[u] == k.s.prio[u])
  }

  lemma LockGoesOn(k: Kernel, e: Step, u: Tid)
    requires Enabled(k, e) && k.s.Known(u) && (e.Lock? || e.TryLock?)
    ensures GoesOn(k, e, u)
  {
  }

  lemma UnlockGoesOn(k: Kernel, e: Step, u: Tid)
    requires Enabled(k, e) && k.s.Known(u) && (e.Unlock? || e.CondWait?)
    ensures GoesOn(k, e, u)
  {
    AfterUnlock(k, e.m, u);
    UnlockShaped(k, e.m);
    hide UnlockStep, UnlockSchedules;
  }

  // What an unlock does to a thread's state and priority.
  lemma AfterUnlock(k: Kernel, m: nat, u: Tid)
    requires KernelOk(k) && m < |k.mutex| && k.s.Known(u)
    ensures var k' := UnlockStep(k, m).0;
            && k'.s.Known(u) && (k.s.IsReady(u) ==> k'.s.IsReady(u))
            && (u != k.s.current ==> k'.s.prio[u] == k.s.prio[u])
            && (!UnlockSchedules(k, m) ==> k'.s.current == k.s.current)
  {
    ActivateAllFrame(k.s, k.waiters[m]);
  }

  lemma RestGoesOn(k: Kernel, e: Step, u: Tid)
    requires Enabled(k, e) && k.s.Known(u) && !e.Lock? && !e.TryLock? && !e.Unlock? && !e.CondWait?
    ensures GoesOn(k, e, u)
  {
    hide Waiting, MutexOk, Ok, Top, RemoveFrom, InsertTail, InsertHead;
    if e.Broadcast? {
      ActivateAllFrame(k.s, k.conds[e.c]);
    }
  }

  /** A mutex is taken only when it is free and only by the running thread; it is given up only by its owner. */
  lemma OwnershipChanges(k: Kernel, e: Step, m: nat)
    requires Enabled(k, e) && m < |k.mutex|
    ensures m < |Apply(k, e).mutex|
    ensures var was, now := k.mutex[m].owner, Apply(k, e).mutex[m].owner;
            was != now ==> if was == NULL then now == k.s.current && (e == Lock(m) || e == TryLock(m))
                           else now == NULL && was == k.s.current && (e == Unlock(m) || (e.CondWait? && e.m == m))
  {
  }

  // ----- what the calls return

  /**
   pthread_mutex_lock_sys succeeds exactly if the mutex is free, or recursive and the caller's; it reports a deadlock
   exactly if an error-checking mutex is the caller's; otherwise the caller blocks.
   */
  lemma LockResult(k: Kernel, m: nat)
    requires KernelOk(k) && m < |k.mutex|
    ensures var (k', r), t, M := LockStep(k, m), k.s.current, k.mutex[m];
            && (r == Done <==> M.owner == NULL || (M.owner == t && M.kind == Recursive))
            && (r == EDEADLK <==> M.owner == t && M.kind == ErrorCheck)
            && (r == Blocked <==> M.owner != NULL && (M.owner == t ==> M.kind == Normal))
            && (r == Done ==> k'.mutex[m].owner == t)
            && (r == Done && M.owner == t ==> k'.mutex == k.mutex[m := M.(counter := M.counter + 1)])
            && (r == EDEADLK ==> k' == k.(inLock := k.inLock - {t}))
  {
    assert k.s.current != NULL;
    hide Ok, Waiting, MutexOk, KnownAll;
  }

  /** pthread_mutex_trylock_sys succeeds in the same cases, with the mutex then held, and changes nothing otherwise. */
  lemma TryLockResult(k: Kernel, m: nat)
    requires KernelOk(k) && m < |k.mutex|
    ensures var (k', r), t, M := TryLockStep(k, m), k.s.current, k.mutex[m];
            && (r == Done <==> M.owner == NULL || (M.owner == t && M.kind == Recursive))
            && (r == Done ==> k'.mutex[m].owner == t)
            && (r == Done && M.owner == t ==> k' == k.(mutex := k.mutex[m := M.(counter := M.counter + 1)]))
            && (r != Done ==> r == EBUSY && k' == k)
  {
    assert k.s.current != NULL;
    hide Ok, Waiting, MutexOk, KnownAll;
  }

  /**
   pthread_mutex_unlock_sys fails exactly for another thread's mutex and for a free error-checking one; a failing call
   and the unlock of a free mutex change nothing.
   */
  lemma UnlockResult(k: Kernel, m: nat)
    requires KernelOk(k) && m < |k.mutex|
    ensures var (k', r), t, M := UnlockStep(k, m), k.s.current, k.mutex[m];
            && (r == EPERM <==> if M.owner == NULL then M.kind == ErrorCheck else M.owner != t)
            && (r != EPERM ==> r == Done)
            && (M.owner != t ==> k' == k)
            && (M.owner == t && M.kind == Recursive && M.counter > 1 ==>
                 k' == k.(mutex := k.mutex[m := M.(counter := M.counter - 1)]))
  {
    assert k.s.current != NULL;
    hide Ok, Waiting, MutexOk, KnownAll;
  }

  /** pthread_cond_wait_sys fails exactly if the mutex is not the caller's, and then changes nothing. */
  lemma CondWaitResult(k: Kernel, c: nat, m: nat)
    requires KernelOk(k) && c < |k.conds| && m < |k.mutex| && !UnlockSchedules(k, m)
    ensures var (k', r), t := CondWaitStep(k, c, m), k.s.current;
            && (r == EPERM <==> k.mutex[m].owner != t)
            && (r == EPERM ==> k' == k)
            && (r != EPERM ==> r == Blocked && t in k'.conds[c] && k'.inLock == k.inLock[t := m])
  {
    assert k.s.current != NULL;
    hide Ok, Waiting, MutexOk, KnownAll;
  }

  // ----- threads that end

  ghost predicate Ended(k: Kernel, t: Tid) {
    t in k.s.state && k.s.state[t] == Finished && InNoQueue(k.s, t)
  }

  /** The thread that exits is FINISHED and in no queue. */
  lemma ExitEnds(k: Kernel)
    requires Enabled(k, Exit)
    ensures Ended(Apply(k, Exit), k.s.current)
  {
    FinishEffect(k.s, k.s.current);
    ScheduleEffect(Finish(k.s, k.s.current));
  }

  /** The thread that goes to sleep is SUSPENDED. */
  lemma SleepStops(k: Kernel)
    requires Enabled(k, Sleep)
    ensures k.s.current in Apply(k, Sleep).s.state && Apply(k, Sleep).s.state[k.s.current] == Suspended
  {
    SuspendEffect(k.s, k.s.current);
    ScheduleEffect(Suspend(k.s, k.s.current));
  }

  lemma StaysEnded(k: Kernel, e: Step, t: Tid)
    requires Enabled(k, e) && Ended(k, t)
    ensures Ended(Apply(k, e), t)
  {
    StepOk(k, e);
    FinishedKept(k, e, t);
    hide Apply, Enabled;
    FinishedUnqueued(Apply(k, e).s, t);
  }

  lemma FinishedUnqueued(s: Sched, t: Tid)
    requires Ok(s) && t in s.state && s.state[t] == Finished
    ensures InNoQueue(s, t)
  {
    forall p | 0 <= p < |s.queues|
      ensures t !in s.queues[p]
    {
      assert QueueOk(s, p);
    }
  }

  lemma FinishedKept(k: Kernel, e: Step, t: Tid)
    requires Enabled(k, e) && t in k.s.state && k.s.state[t] == Finished
    ensures t in Apply(k, e).s.state && Apply(k, e).s.state[t] == Finished
  {
    hide Waiting, MutexOk, QueueOk;
    if e.Unlock? || e.CondWait? {
      FinishedUnlock(k, e, t);
    } else if e.Broadcast? {
      ActivateAllFrame(k.s, k.conds[e.c]);
      hide ActivateAll;
    } else {
      hide ActivateAll, UnlockStep, CondWaitStep, BroadcastStep;
    }
  }

  lemma FinishedUnlock(k: Kernel, e: Step, t: Tid)
    requires Enabled(k, e) && (e.Unlock? || e.CondWait?) && t in k.s.state && k.s.state[t] == Finished
    ensures t in Apply(k, e).s.state && Apply(k, e).s.state[t] == Finished
  {
    hide Waiting, MutexOk, QueueOk;
    FinishedAfterUnlock(k, e.m, t);
    AfterUnlock(k, e.m, k.s.current);
    UnlockShaped(k, e.m);
    hide UnlockStep, UnlockSchedules;
  }

  lemma FinishedAfterUnlock(k: Kernel, m: nat, t: Tid)
    requires KernelOk(k) && m < |k.mutex| && t in k.s.state && k.s.state[t] == Finished
    ensures var k' := UnlockStep(k, m).0; t in k'.s.state && k'.s.state[t] == Finished
  {
    ActivateAllFrame(k.s, k.waiters[m]);
  }

  /** In every run a thread that has exited is FINISHED, not READY and in no queue at every later moment. */
  lemma {:induction false} ExitIsForEver(ks: seq<Kernel>, es: seq<Step>, i: nat, j: nat)
    requires Interleaving(ks, es) && KernelOk(ks[0]) && i < j < |ks| && es[i] == Exit
    ensures Ended(ks[j], ks[i].s.current) && !ks[j].s.IsReady(ks[i].s.current)
  {
    hide KernelOk, Enabled, Moves, Apply, InNoQueue;
    EveryInterleaving(ks, es, j - 1);
    if j == i + 1 {
      ExitEnds(ks[i]);
    } else {
      ExitIsForEver(ks, es, i, j - 1);
      StaysEnded(ks[j - 1], es[j - 1], ks[i].s.current);
    }
  }

  /** A round of the lock loop leaves it as the owner, or queued and asleep (ReturnsOwning says the same of runs). */
  lemma LockReturnsOwning(k: Kernel, m: nat)
    requires Enabled(k, Lock(m))
    ensures var (k', r) := LockStep(k, m);
            if r.Blocked? then
              && k.mutex[m].owner != NULL && k'.mutex == k.mutex
              && k.s.current in k'.waiters[m] && !k'.s.IsReady(k.s.current)
              && k.s.current in k'.inLock && k'.inLock[k.s.current] == m
            else k'.mutex[m].owner == k.s.current && k'.waiters == k.waiters && k.s.current !in k'.inLock
  {
  }

  /** The last unlock frees the mutex and makes every waiter ready to try again; no other thread changes state. */
  lemma ReleaseWakesAll(k: Kernel, m: nat)
    requires Enabled(k, Unlock(m)) && k.mutex[m].owner == k.s.current
    requires !(k.mutex[m].kind.Recursive? && k.mutex[m].counter > 1)
    ensures var (k', r) := UnlockStep(k, m);
            && r.Done? && k'.mutex[m].owner == NULL && k'.mutex[m].counter == 0 && k'.waiters[m] == []
            && forall t :: t in k.s.state ==>
                 t in k'.s.state && k'.s.state[t] == if t in k.waiters[m] then Ready else k.s.state[t]
  {
    var ws := k.waiters[m];
    ActivateAllFrame(k.s, ws);
    assert ListOk((k.waiters + k.conds)[m], k.s.state);
  }

  // ----- condition variables

  /** The wait of a caller that holds the mutex at depth one: it is free, and the caller in front of the list. */
  lemma WaitIsOneStep(k: Kernel, c: nat, m: nat)
    requires Enabled(k, CondWait(c, m)) && k.mutex[m].owner == k.s.current
    requires !(k.mutex[m].kind.Recursive? && k.mutex[m].counter > 1)
    ensures var (k', r) := CondWaitStep(k, c, m);
            && r.Blocked? && k'.mutex[m].owner == NULL
            && k'.conds == k.conds[c := [k.s.current] + k.conds[c]]
            && k.s.current in k'.s.state && k'.s.state[k.s.current] == Suspended && KernelOk(k')
  {
    ReleaseWakesAll(k, m);
    CondWaitOk(k, c, m);
    ReadyNotWaiting(k, k.s.current);
    assert (k.waiters + k.conds)[m] == k.waiters[m];
  }

  /** A signal wakes exactly one waiter if there is any: the front of the list, which is the last to have joined. */
  lemma SignalWakesOne(k: Kernel, c: nat)
    requires Enabled(k, Signal(c))
    ensures var k', ws := SignalStep(k, c), k.conds[c];
            && k'.mutex == k.mutex && k'.waiters == k.waiters
            && k'.conds == k.conds[c := if ws == [] then [] else ws[1..]]
            && (forall t :: t in k.s.state ==>
                 t in k'.s.state && k'.s.state[t] == if ws != [] && t == ws[0] then Ready else k.s.state[t])
            && (ws != [] ==> ws[0] in k.s.state && k.s.state[ws[0]] == Suspended && ws[0] !in ws[1..])
  {
    var ws, lists := k.conds[c], k.waiters + k.conds;
    assert ListOk(lists[|k.waiters| + c], k.s.state);
    if ws != [] {
      assert ws[0] in ws;
    }
  }

  /** A broadcast wakes all of them. */
  lemma BroadcastWakesAll(k: Kernel, c: nat)
    requires Enabled(k, Broadcast(c))
    ensures var k' := BroadcastStep(k, c);
            && k'.mutex == k.mutex && k'.waiters == k.waiters && k'.conds == k.conds[c := []]
            && forall t :: t in k.s.state ==>
                 t in k'.s.state && k'.s.state[t] == if t in k.conds[c] then Ready else k.s.state[t]
  {
    ActivateAllFrame(k.s, k.conds[c]);
    assert ListOk((k.waiters + k.conds)[|k.waiters| + c], k.s.state);
  }
}
