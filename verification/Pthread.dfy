/**
 The kernel objects behind MutexSteps: the waiter lists of include/ertl_core/pthread_list.h
 and the mutex and condition calls of server/core/port/pthread.c.
 */
module Pthread {
  import opened Bitmaps
  import opened Links
  import opened ReadyQueues
  import opened Scheduler
  import opened MutexSteps

  /** A thread that is on none of the lists has a clear node. */
  ghost predicate OthersClear(link: Memory, lists: seq<seq<Tid>>) {
    forall t :: t in link && !Listed(lists, t) ==> link[t] == NO_LINK
  }

  lemma ListedAfterInsert(lists: seq<seq<Tid>>, i: nat, t: Tid, x: Tid)
    requires i < |lists|
    ensures Listed(lists[i := [t] + lists[i]], x) <==> x == t || Listed(lists, x)
  {
    var lists' := lists[i := [t] + lists[i]];
    assert t in lists'[i];
    if Listed(lists, x) {
      var d :| 0 <= d < |lists| && x in lists[d];
      assert x in lists'[d];
    }
  }

  lemma ListedAfterRemove(lists: seq<seq<Tid>>, i: nat, x: Tid)
    requires i < |lists| && lists[i] != []
    ensures Listed(lists, x) ==> x == lists[i][0] || Listed(lists[i := lists[i][1..]], x)
  {
    var lists' := lists[i := lists[i][1..]];
    if Listed(lists, x) && x != lists[i][0] {
      var d :| 0 <= d < |lists| && x in lists[d];
      assert x in lists'[d];
    }
  }

  lemma ListedAfterWithout(lists: seq<seq<Tid>>, i: nat, k: nat, x: Tid)
    requires i < |lists| && k < |lists[i]|
    ensures Listed(lists, x) ==> x == lists[i][k] || Listed(lists[i := Without(lists[i], k)], x)
    ensures x in lists[i] && x != lists[i][k] ==> Listed(lists[i := Without(lists[i], k)], x)
  {
    var lists' := lists[i := Without(lists[i], k)];
    if Listed(lists, x) && x != lists[i][k] {
      var d :| 0 <= d < |lists| && x in lists[d];
      if d == i {
        assert x in lists'[i];
      } else {
        assert x in lists'[d];
      }
    }
  }

  // The pointers remove_pthread_list writes.
  lemma RemoveIs(m: Memory, t: Tid)
    requires t in m && (m[t].next != NULL ==> m[t].next in m) && (m[t].prev != NULL ==> m[t].prev in m)
    ensures var Link(prev, next) := m[t];
            var m1 := if next != NULL then m[next := m[next].(prev := prev)] else m;
            var m2 := if prev != NULL then m1[prev := m1[prev].(next := next)] else m1;
            m2[t := NO_LINK] == UnlinkLinks(m, t)
  {
  }

  // The pointers insert_pthread_list writes, for a node that is clear.
  lemma InsertIs(m: Memory, head: Tid, t: Tid)
    requires t in m && m[t] == NO_LINK && (head != NULL ==> head in m) && head != t
    ensures var m1 := if head != NULL then m[head := m[head].(prev := t)] else m;
            m1[t := m1[t].(next := head)] == PushFrontLinks(m, head, t)
  {
  }

  lemma ListedApart(a: seq<seq<Tid>>, b: seq<seq<Tid>>, t: Tid)
    requires !Listed(a + b, t)
    ensures !Listed(a, t) && !Listed(b, t)
  {
    forall i | 0 <= i < |a|
      ensures t !in a[i]
    {
      assert (a + b)[i] == a[i];
    }
    forall i | 0 <= i < |b|
      ensures t !in b[i]
    {
      assert (a + b)[|a| + i] == b[i];
    }
  }

  lemma UnknownNotListed(link: Memory, heads: seq<Tid>, lists: seq<seq<Tid>>, t: Tid)
    requires Family(link, heads, lists) && t !in link
    ensures !Listed(lists, t)
  {
    if i :| 0 <= i < |lists| && t in lists[i] {
      assert IsList(link, heads[i], lists[i]);
      var n :| 0 <= n < |lists[i]| && lists[i][n] == t;
      assert Linked(link, lists[i], n);
    }
  }

  lemma OkInRange(s: Sched)
    requires Ok(s)
    ensures InRange(s)
  {
  }

  class ThreadLists {
    var heads: seq<Tid>
    var link: Memory  // prev and next of every thread's node
    ghost var lists: seq<seq<Tid>>

    ghost predicate Valid()
      reads this
    {
      Family(link, heads, lists) && OthersClear(link, lists)
    }

    constructor (n: nat)
      ensures Valid() && lists == seq(n, _ => []) && link == map[]
    {
      heads, link, lists := seq(n, _ => NULL), map[], seq(n, _ => []);
    }

    /** The zeroed node of a new thread. */
    method Register(t: Tid)
      requires Valid() && t != NULL && t !in link
      modifies this
      ensures Valid() && lists == old(lists) && link.Keys == old(link.Keys) + {t}
    {
      UnknownNotListed(link, heads, lists, t);
      UnlistedLink(link, heads, lists, t, NO_LINK);
      link := link[t := NO_LINK];
    }

    /** insert_pthread_list: the back pointer of the new node is not written. */
    method Insert(i: nat, t: Tid)
      requires Valid() && i < |lists| && t in link && t != NULL && !Listed(lists, t)
      modifies this
      ensures Valid() && lists == old(lists)[i := [t] + old(lists)[i]] && link.Keys == old(link.Keys)
    {
      hide PushFrontLinks;
      ghost var before := lists;
      HeadInMemory(link, heads, lists, i);
      HeadIsListed(link, heads, lists, i);
      PushFrontFamily(link, heads, lists, i, t);
      InsertIs(link, heads[i], t);
      if heads[i] != NULL {
        link := link[heads[i] := link[heads[i]].(prev := t)];
      }
      link := link[t := link[t].(next := heads[i])];
      heads := heads[i := t];
      lists := lists[i := [t] + lists[i]];
      forall x
        ensures Listed(lists, x) <==> x == t || Listed(before, x)
      {
        ListedAfterInsert(before, i, t, x);
      }
    }

    /** remove_pthread_list; k is the position of t. */
    method Remove(i: nat, t: Tid, ghost k: nat)
      requires Valid() && i < |lists| && k < |lists[i]| && lists[i][k] == t
      modifies this
      ensures Valid() && lists == old(lists)[i := Without(old(lists)[i], k)] && link.Keys == old(link.Keys)
    {
      ghost var before, m := lists, link;
      hide UnlinkLinks;
      UnlinkFamily(link, heads, lists, i, k);
      NeighboursInMemory(link, lists[i], k);
      RemoveIs(link, t);
      var Link(prev, next) := link[t];
      if next != NULL {
        link := link[next := link[next].(prev := prev)];
      }
      if prev != NULL {
        link := link[prev := link[prev].(next := next)];
      }
      if heads[i] == t {
        heads := heads[i := next];
      }
      link := link[t := NO_LINK];
      lists := lists[i := Without(lists[i], k)];
      assert heads == old(heads)[i := if old(heads)[i] == t then next else old(heads)[i]];
      forall x | x in link && !Listed(lists, x)
        ensures link[x] == NO_LINK
      {
        ListedAfterWithout(before, i, k, x);
      }
    }

    /** remove_head_pthread_list */
    method RemoveHead(i: nat) returns (t: Tid)
      requires Valid() && i < |lists|
      modifies this
      ensures Valid() && link.Keys == old(link.Keys)
      ensures old(lists)[i] == [] ==> t == NULL && lists == old(lists)
      ensures old(lists)[i] != [] ==> t == old(lists)[i][0] != NULL && lists == old(lists)[i := old(lists)[i][1..]]
    {
      hide UnlinkLinks;
      ghost var before, m := lists, link;
      HeadTellsEmpty(link, heads, lists, i);
      t := heads[i];
      if t == NULL {
        return;
      }
      UnlinkFamily(link, heads, lists, i, 0);
      assert Without(lists[i], 0) == lists[i][1..];
      assert Linked(link, lists[i], 0);
      NeighboursInMemory(link, lists[i], 0);
      RemoveHeadIs(link, t);
      heads := heads[i := link[t].next];
      if heads[i] != NULL {
        link := link[heads[i] := link[heads[i]].(prev := NULL)];
      }
      link := link[t := NO_LINK];
      lists := lists[i := lists[i][1..]];
      forall x | x in link && !Listed(lists, x)
        ensures link[x] == NO_LINK
      {
        ListedAfterRemove(before, i, x);
        assert x !in before[i] || x == t;
      }
    }
  }

  // The pointers remove_head_pthread_list writes.
  lemma RemoveHeadIs(m: Memory, t: Tid)
    requires t in m && m[t].prev == NULL && (m[t].next != NULL ==> m[t].next in m)
    ensures var next := m[t].next;
            (if next != NULL then m[next := m[next].(prev := NULL)] else m)[t := NO_LINK] == UnlinkLinks(m, t)
  {
  }

  // The owner is still running and ready after an unlock that does not reschedule.
  lemma UnlockedCaller(k: Kernel, m: nat)
    requires KernelOk(k) && m < |k.mutex| && k.s.IsReady(k.s.current) && !UnlockSchedules(k, m)
    ensures var k' := UnlockStep(k, m).0;
            k'.s.current == k.s.current && k'.s.IsReady(k.s.current) && |k'.conds| == |k.conds|
  {
    ActivateAllFrame(k.s, k.waiters[m]);
  }

  // The counter does not matter to a release.
  lemma ReleaseIgnoresCounter(k: Kernel, k1: Kernel, m: nat)
    requires Shaped(k) && m < |k.mutex| == |k1.mutex|
    requires k1 == k.(mutex := k.mutex[m := k.mutex[m].(counter := k1.mutex[m].counter)])
    ensures Shaped(k1) && Release(k1, m) == Release(k, m)
  {
  }

  /** The first n threads have been activated since s0. */
  ghost predicate Draining(s0: Sched, s: Sched, all: seq<Tid>, n: nat)
    requires n <= |all|
  {
    && InRange(s0) && KnownAll(all, s0) && InRange(s) && KnownAll(all[n..], s)
    && ActivateAll(s, all[n..]) == ActivateAll(s0, all)
  }

  lemma DrainStart(s: Sched, all: seq<Tid>)
    requires Ok(s) && KnownAll(all, s)
    ensures Draining(s, s, all, 0) && InRange(s)
  {
    OkInRange(s);
    assert all[0..] == all;
  }

  lemma DrainStep(s0: Sched, s: Sched, all: seq<Tid>, n: nat)
    requires n < |all| && Draining(s0, s, all, n)
    ensures s.Known(all[n]) && |s.queues| == PRIORITIES && s.prio[all[n]] < PRIORITIES
    ensures Draining(s0, Activate(s, all[n]), all, n + 1)
  {
    ActivateFrame(s, all[n..]);
    assert all[n..][1..] == all[n + 1..];
  }

  lemma DrainEnd(s0: Sched, s: Sched, all: seq<Tid>)
    requires Draining(s0, s, all, |all|)
    ensures InRange(s0) && KnownAll(all, s0) && s == ActivateAll(s0, all)
  {
  }

  /** PTHREAD_MUTEX_INITIALIZER with attributes in range. */
  predicate FreshMutex(M: Mutex) {
    M.owner == NULL && M.counter == 0 && M.ceiling < PRIORITIES && M.ownerPrio < PRIORITIES
  }

  lemma FreshKernelOk(k: Kernel)
    requires Ok(k.s) && k.s.nesting == 0 && |k.waiters| == |k.mutex|
    requires forall m :: 0 <= m < |k.mutex| ==> FreshMutex(k.mutex[m])
    requires forall m :: 0 <= m < |k.waiters| ==> k.waiters[m] == []
    requires forall c :: 0 <= c < |k.conds| ==> k.conds[c] == []
    ensures KernelOk(k)
  {
    var lists := k.waiters + k.conds;
    forall i | 0 <= i < |lists|
      ensures lists[i] == []
    {
    }
    hide Ok;
    KernelIsOk(k);
  }

  class PthreadKernel {
    const sched: Scheduler
    var mutex: seq<Mutex>
    const waiting: ThreadLists  // mutex_list of every mutex
    const condWaiting: ThreadLists  // cond_list of every condition
    ghost var inLock: map<Tid, nat>  // which call each blocked thread goes on with: part of its program counter

    ghost function View(): Kernel
      reads this, sched, sched.ready, waiting, condWaiting
    {
      Kernel(sched.View(), mutex, waiting.lists, condWaiting.lists, inLock)
    }

    ghost predicate Valid()
      reads this, sched, sched.ready, waiting, condWaiting
    {
      && waiting != condWaiting
      && sched.Valid() && waiting.Valid() && condWaiting.Valid()
      && waiting.link.Keys == sched.state.Keys == condWaiting.link.Keys
      && KernelOk(View())
    }

    /** The initial kernel: an idle thread, free mutexes, and nobody waiting. */
    constructor (idleThread: Tid, mutexes: seq<Mutex>, conditions: nat)
      requires idleThread != NULL
      requires forall m :: 0 <= m < |mutexes| ==> FreshMutex(mutexes[m])
      ensures Valid() && fresh(sched) && fresh(sched.ready) && fresh(waiting) && fresh(condWaiting)
      ensures View().s == Idle(idleThread) && mutex == mutexes && inLock == map[]
      ensures waiting.lists == seq(|mutexes|, _ => []) && condWaiting.lists == seq(conditions, _ => [])
    {
      hide Ok, Family, OthersClear, CellsMatch, RowsMatch, Waiting, MutexOk, KnownAll, RemoveFrom, Top;
      sched := new Scheduler(idleThread);
      waiting := new ThreadLists(|mutexes|);
      condWaiting := new ThreadLists(conditions);
      mutex, inLock := mutexes, map[];
      new;
      waiting.Register(idleThread);
      condWaiting.Register(idleThread);
      FreshKernelOk(View());
    }

    /** pthread_create_sys, with the thread structure already allocated: -1 for a priority out of range. */
    method CreateThread(t: Tid, prio: nat) returns (r: int)
      requires Valid() && t != NULL && t !in sched.state
      modifies sched, sched.ready, waiting, condWaiting
      ensures Valid() && r == if prio <= MIN_SCHED_PRIORITY then 0 else -1
      ensures r == 0 ==> Shaped(old(View())) && View() == CreateStep(old(View()), t, prio) && View().s.IsReady(t)
      ensures r != 0 ==> View() == old(View())
    {
      hide Ok, Family, OthersClear, CellsMatch, RowsMatch, Waiting, KernelOk, MutexOk, KnownAll;
      hide Listed, RemoveFrom, Top;
      Basics();
      if prio > MIN_SCHED_PRIORITY {
        return -1;
      }
      CreateOk(View(), t, prio);
      Introduce(t);
      sched.StartThread(t, prio);
      return 0;
    }

    // The structure of a new thread, with a node for each kind of list.
    method Introduce(t: Tid)
      requires Valid() && t != NULL && t !in sched.state
      modifies sched, sched.ready, waiting, condWaiting
      ensures sched.Valid() && waiting.Valid() && condWaiting.Valid()
      ensures waiting.link.Keys == sched.state.Keys == condWaiting.link.Keys
      ensures View() == old(View()).(s := Register(old(View()).s, t))
    {
      hide Ok, Family, OthersClear, CellsMatch, RowsMatch, Waiting, KernelOk, MutexOk, KnownAll;
      hide Listed, RemoveFrom, Top;
      sched.CreateThread(t);
      waiting.Register(t);
      condWaiting.Register(t);
    }

    /** The common end of a first acquisition. */
    method TakeMutex(m: nat, counter: int)
      requires Valid() && m < |mutex| && mutex[m].owner == NULL
      modifies this, sched, sched.ready
      ensures Valid() && View() == Acquire(old(View()), m, counter)
    {
      hide Ok, Family, OthersClear, CellsMatch, RowsMatch, Waiting, KernelOk, MutexOk, KnownAll;
      hide Listed, RemoveFrom, Top;
      Basics();
      AcquireOk(View(), m, counter);
      var t := sched.current;
      mutex := mutex[m := mutex[m].(owner := t, counter := counter)];
      if mutex[m].protect {
        mutex := mutex[m := mutex[m].(ownerPrio := sched.prio[t])];
        assert mutex == old(mutex)[m := old(mutex)[m].(owner := t, counter := counter, ownerPrio := sched.prio[t])];
        if sched.prio[t] > mutex[m].ceiling {
          sched.ChangeThreadPrio(t, mutex[m].ceiling);
          sched.Scheduling();
        }
      }
    }

    /** One round of the loop in pthread_mutex_lock_sys. */
    method MutexLock(m: nat) returns (r: Result)
      requires Valid() && m < |mutex| && sched.state[sched.current].Ready?
      modifies this, sched, sched.ready, waiting
      ensures Valid() && View() == LockStep(old(View()), m).0 && r == LockStep(old(View()), m).1
    {
      hide Ok, Family, OthersClear, CellsMatch, RowsMatch, Waiting, KernelOk, MutexOk, KnownAll;
      hide Listed, RemoveFrom, Top;
      hide Schedule, Acquire;
      Basics();
      LockOk(View(), m);
      var t := sched.current;
      if mutex[m].owner != NULL {
        if mutex[m].owner == t {
          match mutex[m].kind {
            case ErrorCheck =>
              inLock := inLock - {t};
              PlacesDoNotMatter(old(View()), inLock);
              return EDEADLK;
            case Recursive =>
              inLock := inLock - {t};
              mutex := mutex[m := mutex[m].(counter := mutex[m].counter + 1)];
              return Done;
            case Normal =>
          }
        }
        NotListed(t);
        sched.SuspendThread(t);
        waiting.Insert(m, t);
        inLock := inLock[t := m];
        sched.Scheduling();
        return Blocked;
      }
      inLock := inLock - {t};
      PlacesDoNotMatter(old(View()), inLock);
      TakeMutex(m, 1);
      return Done;
    }

    /** What the invariant says about the running thread and the mutexes. */
    lemma Basics()
      requires Valid()
      ensures Shaped(View()) && |waiting.lists| == |mutex| && NULL !in sched.state
      ensures sched.current in sched.state && sched.current in sched.prio
      ensures forall t :: t in sched.state ==> t in sched.prio && sched.prio[t] < PRIORITIES
      ensures forall m :: 0 <= m < |mutex| ==> mutex[m].ceiling < PRIORITIES && mutex[m].ownerPrio < PRIORITIES
    {
      hide Family, OthersClear, CellsMatch, RowsMatch, Waiting, MutexOk, KnownAll, QueueOk;
    }

    lemma NotListed(t: Tid)
      requires Valid() && t in sched.state && sched.state[t].Ready?
      ensures !Listed(waiting.lists, t) && !Listed(condWaiting.lists, t) && t != NULL
    {
      hide Family, OthersClear, CellsMatch, RowsMatch, Waiting, MutexOk, KnownAll, QueueOk;
      ReadyNotWaiting(View(), t);
      ListedApart(waiting.lists, condWaiting.lists, t);
    }

    /** pthread_mutex_trylock_sys */
    method MutexTryLock(m: nat) returns (r: Result)
      requires Valid() && m < |mutex|
      modifies this, sched, sched.ready
      ensures Valid() && View() == TryLockStep(old(View()), m).0 && r == TryLockStep(old(View()), m).1
      ensures r == Done <==> old(mutex)[m].owner == NULL
                             || (old(mutex)[m].owner == old(sched.current) && old(mutex)[m].kind == Recursive)
      ensures r == Done ==> m < |mutex| && mutex[m].owner == old(sched.current)
      ensures r != Done ==> r == EBUSY && View() == old(View())
    {
      hide Ok, Family, OthersClear, CellsMatch, RowsMatch, Waiting, KernelOk, MutexOk, KnownAll;
      hide Listed, RemoveFrom, Top;
      Basics();
      TryLockOk(View(), m);
      TryLockResult(View(), m);
      if mutex[m].owner != NULL {
        if mutex[m].owner == sched.current {
          if mutex[m].kind == Recursive {
            mutex := mutex[m := mutex[m].(counter := mutex[m].counter + 1)];
            return Done;
          }
        }
        return EBUSY;
      }
      TakeMutex(m, mutex[m].counter);
      return Done;
    }

    /** The wake-up loop of unlock and broadcast: list i of `from` is emptied from the front, each thread activated. */
    method Drain(from: ThreadLists, i: nat)
      requires sched.Valid() && from.Valid() && i < |from.lists|
      requires from.link.Keys == sched.state.Keys && KnownAll(from.lists[i], sched.View())
      modifies sched, sched.ready, from
      ensures sched.Valid() && from.Valid() && from.link.Keys == old(from.link.Keys)
      ensures from.lists == old(from.lists)[i := []]
      ensures InRange(old(sched.View()))
      ensures sched.View() == ActivateAll(old(sched.View()), old(from.lists)[i])
    {
      hide Ok, Family, OthersClear, CellsMatch, RowsMatch, Waiting, KernelOk, MutexOk, Listed, RemoveFrom, Top;
      ghost var s0, lists, all, n := sched.View(), from.lists, from.lists[i], 0;
      DrainStart(s0, all);
      hide Draining, Activate, ActivateAll, KnownAll, InRange;
      var thread := from.RemoveHead(i);
      while thread != NULL
        invariant sched.Valid() && from.Valid() && from.link.Keys == old(from.link.Keys)
        invariant n <= |all|
        invariant thread == NULL ==> n == |all|
        invariant thread != NULL ==> n < |all| && thread == all[n]
        invariant from.lists == lists[i := all[if thread == NULL then n else n + 1..]]
        invariant Draining(s0, sched.View(), all, n)
        decreases |all| - n, thread != NULL
      {
        DrainStep(s0, sched.View(), all, n);
        sched.ActivateThread(thread);
        n := n + 1;
        assert all[n..] == from.lists[i];
        thread := from.RemoveHead(i);
      }
      DrainEnd(s0, sched.View(), all);
    }

    /** The last unlock. */
    method ReleaseMutex(m: nat)
      requires sched.Valid() && waiting.Valid() && waiting.link.Keys == sched.state.Keys
      requires Shaped(View()) && m < |mutex|
      modifies this, sched, sched.ready, waiting
      ensures sched.Valid() && waiting.Valid() && waiting.link.Keys == sched.state.Keys == old(sched.state).Keys
      ensures sched.View() == Release(old(View()), m).s && inLock == old(inLock)
      ensures mutex == Release(old(View()), m).mutex && waiting.lists == Release(old(View()), m).waiters
    {
      hide Ok, Family, OthersClear, CellsMatch, RowsMatch, KnownAll, Listed, RemoveFrom, Top;
      var t := sched.current;
      ActivateAllFrame(sched.View(), waiting.lists[m]);
      Drain(waiting, m);
      mutex := mutex[m := mutex[m].(owner := NULL, counter := 0)];
      if mutex[m].protect && mutex[m].ownerPrio != sched.prio[t] {
        sched.ChangeThreadPrio(t, mutex[m].ownerPrio);
        sched.Scheduling();
      }
    }

    /** pthread_mutex_unlock_sys; the counter of a recursive mutex is decremented first. */
    method MutexUnlock(m: nat) returns (r: Result)
      requires Valid() && m < |mutex|
      modifies this, sched, sched.ready, waiting
      ensures Valid() && View() == UnlockStep(old(View()), m).0 && r == UnlockStep(old(View()), m).1
      ensures old(mutex)[m].owner == old(sched.current) ==> r == Done
      ensures old(mutex)[m].owner != old(sched.current) && old(mutex)[m].owner != NULL ==> r == EPERM
    {
      hide Ok, Family, OthersClear, CellsMatch, RowsMatch, Waiting, KernelOk, MutexOk, KnownAll;
      hide Listed, RemoveFrom, Top;
      Basics();
      UnlockOk(View(), m);
      UnlockResult(View(), m);
      var t := sched.current;
      if mutex[m].owner != NULL {
        if mutex[m].owner != t {
          return EPERM;
        }
        if mutex[m].kind == Recursive {
          mutex := mutex[m := mutex[m].(counter := mutex[m].counter - 1)];
          if mutex[m].counter > 0 {
            return Done;
          }
        }
        ReleaseIgnoresCounter(old(View()), View(), m);
        ReleaseMutex(m);
      } else {
        if mutex[m].kind == ErrorCheck {
          return EPERM;
        }
      }
      return Done;
    }

    /** pthread_cond_wait_sys up to its scheduling() call. */
    method CondWaitBegin(c: nat, m: nat) returns (r: Result)
      requires Valid() && m < |mutex| && c < |condWaiting.lists| && sched.state[sched.current].Ready?
      requires Shaped(View()) && !UnlockSchedules(View(), m)
      modifies this, sched, sched.ready, waiting, condWaiting
      ensures Valid() && View() == CondWaitStep(old(View()), c, m).0 && r == CondWaitStep(old(View()), c, m).1
    {
      hide Ok, Family, OthersClear, CellsMatch, RowsMatch, Waiting, KernelOk, MutexOk, KnownAll;
      hide Listed, RemoveFrom, Top;
      hide Schedule, UnlockStep;
      Basics();
      CondWaitOk(View(), c, m);
      var t := sched.current;
      if mutex[m].owner != t {
        return EPERM;
      }
      UnlockedCaller(View(), m);
      var _ := MutexUnlock(m);
      Sleep(c, t);
      inLock := inLock[t := m];
      return Blocked;
    }

    /** The running thread is suspended, joins the condition's list, and gives up the processor. */
    method Sleep(c: nat, t: Tid)
      requires Valid() && c < |condWaiting.lists| && t == sched.current && sched.state[t].Ready?
      modifies sched, sched.ready, condWaiting
      ensures waiting.Valid() && waiting.link == old(waiting.link) && condWaiting.Valid() && sched.Valid()
      ensures waiting.link.Keys == sched.state.Keys == condWaiting.link.Keys
      ensures var k := old(View());
              && k.s.Known(t) && c < |k.conds|
              && View() == k.(s := Schedule(Suspend(k.s, t)), conds := k.conds[c := [t] + k.conds[c]])
    {
      hide Ok, Family, OthersClear, CellsMatch, RowsMatch, Waiting, KernelOk, MutexOk, KnownAll;
      hide Listed, RemoveFrom, Top;
      Basics();
      NotListed(t);
      sched.SuspendThread(t);
      condWaiting.Insert(c, t);
      sched.Scheduling();
    }

    /** pthread_cond_signal_sys */
    method CondSignal(c: nat)
      requires Valid() && c < |condWaiting.lists|
      modifies sched, sched.ready, condWaiting
      ensures Valid() && View() == SignalStep(old(View()), c)
    {
      hide Ok, Family, OthersClear, CellsMatch, RowsMatch, Waiting, KernelOk, MutexOk, KnownAll;
      hide Listed, RemoveFrom, Top;
      Basics();
      SignalOk(View(), c);
      ghost var ws := condWaiting.lists[c];
      if ws != [] {
        ActivateFrame(sched.View(), ws);
      }
      var thread := condWaiting.RemoveHead(c);
      if thread != NULL {
        sched.ActivateThread(thread);
      }
      assert sched.state.Keys == old(sched.state).Keys;
      assert condWaiting.lists == old(condWaiting.lists)[c := if ws == [] then [] else ws[1..]];
      sched.Scheduling();
    }

    /** pthread_cond_broadcast_sys */
    method CondBroadcast(c: nat)
      requires Valid() && c < |condWaiting.lists|
      modifies sched, sched.ready, condWaiting
      ensures Valid() && View() == BroadcastStep(old(View()), c)
    {
      hide Ok, Family, OthersClear, CellsMatch, RowsMatch, Waiting, KernelOk, MutexOk, KnownAll;
      hide Listed, RemoveFrom, Top;
      Basics();
      BroadcastOk(View(), c);
      ActivateAllFrame(sched.View(), condWaiting.lists[c]);
      Drain(condWaiting, c);
      sched.Scheduling();
    }
  }
}
