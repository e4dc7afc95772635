/**
 The immediate priority ceiling protocol of PRIO_PROTECT mutexes
 (server/core/port/pthread.c and sched.c): priorities under nested locking, and the
 absence of contention.
 */
module PriorityCeiling {
  import opened Links
  import opened ReadyQueues
  import opened Scheduler
  import opened MutexSteps

  /** The protected mutexes each thread holds, in the order it took them. */
  type Holdings = map<Tid, seq<nat>>

  /** The numeric minimum of the base priority and the ceilings of the mutexes held. */
  ghost function Effective(base: nat, mutex: seq<Mutex>, held: seq<nat>): nat {
    if held == [] then base
    else
      var below, m := Effective(base, mutex, held[..|held| - 1]), held[|held| - 1];
      if m < |mutex| && mutex[m].ceiling < below then mutex[m].ceiling else below
  }

  /** held[i] is a protected mutex of t that remembers the priority t had when taking it. */
  ghost predicate HoldsAt(k: Kernel, base: nat, t: Tid, held: seq<nat>, i: nat)
    requires i < |held|
  {
    var m := held[i];
    && m < |k.mutex| && k.mutex[m].protect && k.mutex[m].owner == t
    && k.mutex[m].ownerPrio == Effective(base, k.mutex, held[..i])
  }

  ghost predicate PrioOk(k: Kernel, base: nat, t: Tid, held: seq<nat>) {
    && t in k.s.prio && k.s.prio[t] == Effective(base, k.mutex, held)
    && Distinct(held)
    && forall i :: 0 <= i < |held| ==> HoldsAt(k, base, t, held, i)
  }

  ghost predicate OwnedOk(k: Kernel, held: Holdings, m: nat)
    requires m < |k.mutex|
  {
    var M := k.mutex[m];
    M.protect && M.owner != NULL ==> M.owner in held && m in held[M.owner]
  }

  /** Every thread runs at the minimum of its base priority and the ceilings of what it holds. */
  ghost predicate Tracked(k: Kernel, base: map<Tid, nat>, held: Holdings) {
    && held.Keys == base.Keys == k.s.prio.Keys
    && (forall t :: t in held ==> PrioOk(k, base[t], t, held[t]))
    && (forall m :: 0 <= m < |k.mutex| ==> OwnedOk(k, held, m))
  }

  // ----- how steps change what is held

  ghost function HeldAfter(k: Kernel, held: Holdings, e: Step): Holdings {
    var t := k.s.current;
    if e.Create? then held[e.t := []]
    else if t !in held then held
    else if (e.Lock? || e.TryLock?) && Takes(k, e, e.m) && k.mutex[e.m].protect then held[t := held[t] + [e.m]]
    else if (e.Unlock? || e.CondWait?) && Drops(k, e, e.m) && k.mutex[e.m].protect && held[t] != [] then
      held[t := held[t][..|held[t]| - 1]]
    else held
  }

  /** A newcomer's base priority is the one it is created with. */
  ghost function BaseAfter(base: map<Tid, nat>, e: Step): map<Tid, nat> {
    if e.Create? then base[e.t := e.prio] else base
  }

  /** Protected mutexes are released in the reverse order of locking. */
  ghost predicate Lifo(k: Kernel, held: Holdings, e: Step) {
    (e.Unlock? || e.CondWait?) && Drops(k, e, e.m) && k.mutex[e.m].protect ==>
      k.s.current in held && held[k.s.current] != [] && held[k.s.current][|held[k.s.current]| - 1] == e.m
  }

  // ----- facts about effective priorities

  lemma {:induction false} EffectiveSame(base: nat, mutex: seq<Mutex>, mutex': seq<Mutex>, held: seq<nat>)
    requires |mutex'| == |mutex| && forall m :: 0 <= m < |mutex| ==> mutex'[m].ceiling == mutex[m].ceiling
    ensures Effective(base, mutex', held) == Effective(base, mutex, held)
  {
    if held != [] {
      EffectiveSame(base, mutex, mutex', held[..|held| - 1]);
    }
  }

  lemma {:induction false} EffectiveBelow(base: nat, mutex: seq<Mutex>, held: seq<nat>)
    ensures Effective(base, mutex, held) <= base
    ensures forall i :: 0 <= i < |held| && held[i] < |mutex| ==> Effective(base, mutex, held) <= mutex[held[i]].ceiling
    ensures Effective(base, mutex, held) == base
            || exists i :: 0 <= i < |held| && held[i] < |mutex|
                           && Effective(base, mutex, held) == mutex[held[i]].ceiling
  {
    if held != [] {
      EffectiveBelow(base, mutex, held[..|held| - 1]);
    }
  }

  // ----- steps that neither take nor drop a mutex

  /** Same owner and remembered priority, same attributes; the counter may differ. */
  ghost predicate SameHolder(M: Mutex, M': Mutex) {
    M' == M.(counter := M'.counter)
  }

  ghost predicate Quiet(k: Kernel, k': Kernel, m: nat) {
    && k'.s.prio == k.s.prio && |k'.mutex| == |k.mutex|
    && forall n :: 0 <= n < |k.mutex| && n != m ==> SameHolder(k.mutex[n], k'.mutex[n])
  }

  lemma QuietStep(k: Kernel, e: Step)
    requires Enabled(k, e) && !e.Create? && forall m :: !Takes(k, e, m) && !Drops(k, e, m)
    ensures Quiet(k, Apply(k, e), |k.mutex|)
  {
    if e.Lock? || e.TryLock? {
      assert !Takes(k, e, e.m);
    } else if e.Unlock? || e.CondWait? {
      assert !Drops(k, e, e.m);
      QuietUnlock(k, e);
    } else if e.Broadcast? {
      ActivateAllFrame(k.s, k.conds[e.c]);
    }
  }

  lemma QuietUnlock(k: Kernel, e: Step)
    requires Enabled(k, e) && (e.Unlock? || e.CondWait?) && !Drops(k, e, e.m)
    ensures Quiet(k, Apply(k, e), |k.mutex|)
  {
    assert k.s.current != NULL;
  }

  lemma QuietKeeps(k: Kernel, k': Kernel, base: map<Tid, nat>, held: Holdings)
    requires Tracked(k, base, held) && Quiet(k, k', |k.mutex|)
    ensures Tracked(k', base, held)
  {
    forall m | 0 <= m < |k.mutex|
      ensures OwnedOk(k', held, m) && k'.mutex[m].ceiling == k.mutex[m].ceiling
    {
      assert OwnedOk(k, held, m) && SameHolder(k.mutex[m], k'.mutex[m]);
    }
    forall t | t in held
      ensures PrioOk(k', base[t], t, held[t])
    {
      PrioStays(k, k', base[t], t, held[t]);
    }
  }

  // A thread none of whose mutexes changes hands.
  lemma PrioStays(k: Kernel, k': Kernel, base: nat, t: Tid, held: seq<nat>)
    requires PrioOk(k, base, t, held) && t in k'.s.prio && k'.s.prio[t] == k.s.prio[t] && |k'.mutex| == |k.mutex|
    requires forall m :: 0 <= m < |k.mutex| ==> k'.mutex[m].ceiling == k.mutex[m].ceiling
    requires forall m :: 0 <= m < |k.mutex| && m in held ==> SameHolder(k.mutex[m], k'.mutex[m])
    ensures PrioOk(k', base, t, held)
  {
    EffectiveSame(base, k.mutex, k'.mutex, held);
    forall i | 0 <= i < |held|
      ensures HoldsAt(k', base, t, held, i)
    {
      assert HoldsAt(k, base, t, held, i);
      assert held[i] in held;
      EffectiveSame(base, k.mutex, k'.mutex, held[..i]);
    }
  }

  // ----- taking and dropping a mutex

  lemma TakeStep(k: Kernel, e: Step, m: nat)
    requires Enabled(k, e) && Takes(k, e, m)
    ensures var k', t, M := Apply(k, e), k.s.current, k.mutex[m];
            && |k'.mutex| == |k.mutex| && k'.mutex == k.mutex[m := k'.mutex[m]]
            && k'.mutex[m] == M.(owner := t, counter := k'.mutex[m].counter,
                                 ownerPrio := if M.protect then k.s.prio[t] else M.ownerPrio)
            && k'.s.prio == (if M.protect && M.ceiling < k.s.prio[t] then k.s.prio[t := M.ceiling] else k.s.prio)
  {
  }

  lemma DropStep(k: Kernel, e: Step, m: nat)
    requires Enabled(k, e) && Drops(k, e, m)
    ensures var k', t, M := Apply(k, e), k.s.current, k.mutex[m];
            && k'.mutex == k.mutex[m := M.(owner := NULL, counter := 0)]
            && k'.s.prio == (if M.protect then k.s.prio[t := M.ownerPrio] else k.s.prio)
  {
    ActivateAllFrame(k.s, k.waiters[m]);
  }

  lemma NotHeld(k: Kernel, base: nat, t: Tid, held: seq<nat>, m: nat)
    requires PrioOk(k, base, t, held) && m < |k.mutex| && k.mutex[m].owner != t
    ensures m !in held
  {
    forall i | 0 <= i < |held|
      ensures held[i] != m
    {
      assert HoldsAt(k, base, t, held, i);
    }
  }

  lemma ProtectHeld(k: Kernel, base: nat, t: Tid, held: seq<nat>, m: nat)
    requires PrioOk(k, base, t, held) && m < |k.mutex| && !k.mutex[m].protect
    ensures m !in held
  {
    forall i | 0 <= i < |held|
      ensures held[i] != m
    {
      assert HoldsAt(k, base, t, held, i);
    }
  }

  // The other threads hold nothing of what changes hands.
  lemma OthersStay(k: Kernel, k': Kernel, base: map<Tid, nat>, held: Holdings, m: nat, t: Tid, u: Tid)
    requires Tracked(k, base, held) && m < |k.mutex| && u in held && u != t
    requires k.mutex[m].owner == NULL || k.mutex[m].owner == t
    requires NULL !in held
    requires |k'.mutex| == |k.mutex| && k'.mutex == k.mutex[m := k'.mutex[m]]
    requires k'.mutex[m].ceiling == k.mutex[m].ceiling
    requires u in k'.s.prio && k'.s.prio[u] == k.s.prio[u]
    ensures PrioOk(k', base[u], u, held[u])
  {
    assert PrioOk(k, base[u], u, held[u]);
    NotHeld(k, base[u], u, held[u], m);
    PrioStays(k, k', base[u], u, held[u]);
  }

  /** k' is k with mutex m taken by t. */
  ghost predicate Taken(k: Kernel, k': Kernel, m: nat, t: Tid) {
    && m < |k.mutex| == |k'.mutex| && k.mutex[m].owner == NULL != t
    && k'.mutex == k.mutex[m := k'.mutex[m]]
    && k'.mutex[m] == k.mutex[m].(owner := t, counter := k'.mutex[m].counter, ownerPrio := k'.mutex[m].ownerPrio)
    && if k.mutex[m].protect then
         && t in k.s.prio && k'.mutex[m].ownerPrio == k.s.prio[t]
         && k'.s.prio == k.s.prio[t := if k.mutex[m].ceiling < k.s.prio[t] then k.mutex[m].ceiling else k.s.prio[t]]
       else k'.s.prio == k.s.prio
  }

  lemma TakenThread(k: Kernel, k': Kernel, base: map<Tid, nat>, held: Holdings, m: nat, t: Tid, u: Tid)
    requires Tracked(k, base, held) && Taken(k, k', m, t) && t in held && NULL !in held && u in held
    ensures PrioOk(k', base[u], u, if u == t && k.mutex[m].protect then held[t] + [m] else held[u])
  {
    assert PrioOk(k, base[u], u, held[u]);
    hide PrioOk;
    if u != t {
      OthersStay(k, k', base, held, m, t, u);
    } else {
      NotHeld(k, base[t], t, held[t], m);
      if k.mutex[m].protect {
        TakenPrio(k, k', base[t], t, held[t], m);
      } else {
        PrioStays(k, k', base[t], t, held[t]);
      }
    }
  }

  lemma TakenOwned(k: Kernel, k': Kernel, base: map<Tid, nat>, held: Holdings, m: nat, t: Tid, n: nat)
    requires Tracked(k, base, held) && Taken(k, k', m, t) && t in held && n < |k.mutex|
    ensures OwnedOk(k', if k.mutex[m].protect then held[t := held[t] + [m]] else held, n)
  {
    assert OwnedOk(k, held, n);
    assert forall x :: x in held[t] + [m] <==> x in held[t] || x == m;
  }

  lemma TakenTracked(k: Kernel, k': Kernel, base: map<Tid, nat>, held: Holdings, m: nat, t: Tid)
    requires Tracked(k, base, held) && Taken(k, k', m, t) && t in held && NULL !in held
    ensures Tracked(k', base, if k.mutex[m].protect then held[t := held[t] + [m]] else held)
  {
    hide PrioOk, OwnedOk;
    var held' := if k.mutex[m].protect then held[t := held[t] + [m]] else held;
    forall u | u in held
      ensures PrioOk(k', base[u], u, held'[u])
    {
      TakenThread(k, k', base, held, m, t, u);
    }
    forall n | 0 <= n < |k'.mutex|
      ensures OwnedOk(k', held', n)
    {
      TakenOwned(k, k', base, held, m, t, n);
    }
  }

  lemma TakeKeeps(k: Kernel, e: Step, m: nat, base: map<Tid, nat>, held: Holdings)
    requires Enabled(k, e) && Takes(k, e, m) && Tracked(k, base, held)
    ensures Tracked(Apply(k, e), base, HeldAfter(k, held, e))
  {
    TakeStep(k, e, m);
    assert k.s.prio[k.s.current := k.s.prio[k.s.current]] == k.s.prio;
    TakenTracked(k, Apply(k, e), base, held, m, k.s.current);
  }

  // The taker: its new priority, and the priority remembered for the way back.
  lemma TakenPrio(k: Kernel, k': Kernel, base: nat, t: Tid, held: seq<nat>, m: nat)
    requires PrioOk(k, base, t, held) && m < |k.mutex| && m !in held && k.mutex[m].protect
    requires |k'.mutex| == |k.mutex| && k'.mutex == k.mutex[m := k'.mutex[m]]
    requires k'.mutex[m] == k.mutex[m].(owner := t, counter := k'.mutex[m].counter, ownerPrio := k.s.prio[t])
    requires k'.s.prio == if k.mutex[m].ceiling < k.s.prio[t] then k.s.prio[t := k.mutex[m].ceiling] else k.s.prio
    ensures PrioOk(k', base, t, held + [m])
  {
    var held' := held + [m];
    assert held'[..|held|] == held;
    EffectiveSame(base, k.mutex, k'.mutex, held);
    forall i | 0 <= i < |held'|
      ensures HoldsAt(k', base, t, held', i)
    {
      if i < |held| {
        assert HoldsAt(k, base, t, held, i);
        assert held[i] in held;
        EffectiveSame(base, k.mutex, k'.mutex, held[..i]);
        assert held'[..i] == held[..i];
      }
    }
  }

  /** k' is k with mutex m dropped by t. */
  ghost predicate Dropped(k: Kernel, k': Kernel, m: nat, t: Tid) {
    && m < |k.mutex| && k.mutex[m].owner == t != NULL
    && k'.mutex == k.mutex[m := k.mutex[m].(owner := NULL, counter := 0)]
    && k'.s.prio == if k.mutex[m].protect then k.s.prio[t := k.mutex[m].ownerPrio] else k.s.prio
  }

  lemma DroppedThread(k: Kernel, k': Kernel, base: map<Tid, nat>, held: Holdings, m: nat, t: Tid, u: Tid)
    requires Tracked(k, base, held) && Dropped(k, k', m, t) && t in held && NULL !in held && u in held
    requires k.mutex[m].protect ==> held[t] != [] && held[t][|held[t]| - 1] == m
    ensures PrioOk(k', base[u], u, if u == t && k.mutex[m].protect then held[t][..|held[t]| - 1] else held[u])
  {
    assert PrioOk(k, base[u], u, held[u]);
    hide PrioOk;
    if u != t {
      OthersStay(k, k', base, held, m, t, u);
    } else if k.mutex[m].protect {
      DroppedPrio(k, k', base[t], t, held[t]);
    } else {
      ProtectHeld(k, base[t], t, held[t], m);
      PrioStays(k, k', base[t], t, held[t]);
    }
  }

  lemma DroppedOwned(k: Kernel, k': Kernel, base: map<Tid, nat>, held: Holdings, m: nat, t: Tid, n: nat)
    requires Tracked(k, base, held) && Dropped(k, k', m, t) && t in held && n < |k.mutex|
    requires k.mutex[m].protect ==> held[t] != [] && held[t][|held[t]| - 1] == m
    ensures OwnedOk(k', if k.mutex[m].protect then held[t := held[t][..|held[t]| - 1]] else held, n)
  {
    assert OwnedOk(k, held, n);
    if k.mutex[m].protect {
      assert held[t] == held[t][..|held[t]| - 1] + [m];
      assert forall x :: x in held[t] <==> x in held[t][..|held[t]| - 1] || x == m;
    }
  }

  lemma DroppedTracked(k: Kernel, k': Kernel, base: map<Tid, nat>, held: Holdings, m: nat, t: Tid)
    requires Tracked(k, base, held) && Dropped(k, k', m, t) && t in held && NULL !in held
    requires k.mutex[m].protect ==> held[t] != [] && held[t][|held[t]| - 1] == m
    ensures Tracked(k', base, if k.mutex[m].protect then held[t := held[t][..|held[t]| - 1]] else held)
  {
    hide PrioOk, OwnedOk;
    var held' := if k.mutex[m].protect then held[t := held[t][..|held[t]| - 1]] else held;
    forall u | u in held
      ensures PrioOk(k', base[u], u, held'[u])
    {
      DroppedThread(k, k', base, held, m, t, u);
    }
    forall n | 0 <= n < |k'.mutex|
      ensures OwnedOk(k', held', n)
    {
      DroppedOwned(k, k', base, held, m, t, n);
    }
  }

  lemma DropKeeps(k: Kernel, e: Step, m: nat, base: map<Tid, nat>, held: Holdings)
    requires Enabled(k, e) && Drops(k, e, m) && Tracked(k, base, held) && Lifo(k, held, e)
    ensures Tracked(Apply(k, e), base, HeldAfter(k, held, e))
  {
    DropStep(k, e, m);
    DroppedTracked(k, Apply(k, e), base, held, m, k.s.current);
  }

  // The releaser gets back the priority it had when it took the mutex.
  lemma DroppedPrio(k: Kernel, k': Kernel, base: nat, t: Tid, held: seq<nat>)
    requires PrioOk(k, base, t, held) && held != [] && held[|held| - 1] < |k.mutex|
    requires var m := held[|held| - 1];
             && k'.mutex == k.mutex[m := k.mutex[m].(owner := NULL, counter := 0)]
             && k'.s.prio == k.s.prio[t := k.mutex[m].ownerPrio]
    ensures PrioOk(k', base, t, held[..|held| - 1])
  {
    var held', m := held[..|held| - 1], held[|held| - 1];
    assert HoldsAt(k, base, t, held, |held| - 1);
    EffectiveSame(base, k.mutex, k'.mutex, held');
    forall i | 0 <= i < |held'|
      ensures HoldsAt(k', base, t, held', i)
    {
      assert HoldsAt(k, base, t, held, i);
      EffectiveSame(base, k.mutex, k'.mutex, held[..i]);
      assert held'[..i] == held[..i];
    }
  }

  // ----- creating a thread

  lemma CreateFrame(k: Kernel, e: Step)
    requires Enabled(k, e) && e.Create?
    ensures var k' := Apply(k, e);
            && k'.mutex == k.mutex && k'.waiters == k.waiters
            && e.t !in k.s.prio && k'.s.prio == k.s.prio[e.t := e.prio]
            && (forall u :: k.s.IsReady(u) ==> k'.s.IsReady(u))
  {
  }

  lemma CreateTracked(k: Kernel, e: Step, base: map<Tid, nat>, held: Holdings)
    requires Enabled(k, e) && e.Create? && Tracked(k, base, held)
    ensures Tracked(Apply(k, e), BaseAfter(base, e), HeldAfter(k, held, e))
  {
    CreateFrame(k, e);
    var k', base', held' := Apply(k, e), BaseAfter(base, e), HeldAfter(k, held, e);
    hide Apply, Enabled, KernelOk, Allowed;
    forall u | u in held'
      ensures PrioOk(k', base'[u], u, held'[u])
    {
      if u != e.t {
        assert PrioOk(k, base[u], u, held[u]);
        hide PrioOk;
        PrioStays(k, k', base[u], u, held[u]);
      } else {
        NewcomerPrio(k', base'[u], u);
      }
    }
    forall m | 0 <= m < |k'.mutex|
      ensures OwnedOk(k', held', m)
    {
      hide PrioOk;
      assert OwnedOk(k, held, m);
    }
  }

  lemma NewcomerPrio(k: Kernel, base: nat, t: Tid)
    requires t in k.s.prio && k.s.prio[t] == base
    ensures PrioOk(k, base, t, [])
  {
  }

  /** With releases in LIFO order every step keeps each thread at the minimum of its base priority and its ceilings. */
  lemma TrackedKept(k: Kernel, e: Step, base: map<Tid, nat>, held: Holdings)
    requires Enabled(k, e) && Tracked(k, base, held) && Lifo(k, held, e)
    ensures Tracked(Apply(k, e), BaseAfter(base, e), HeldAfter(k, held, e))
  {
    if e.Create? {
      CreateTracked(k, e, base, held);
    } else if m: nat :| Takes(k, e, m) {
      TakeKeeps(k, e, m, base, held);
    } else if m: nat :| Drops(k, e, m) {
      DropKeeps(k, e, m, base, held);
    } else {
      QuietStep(k, e);
      QuietKeeps(k, Apply(k, e), base, held);
    }
  }

  /** A thread that holds nothing runs at its base priority. */
  lemma BaseAgain(k: Kernel, base: map<Tid, nat>, held: Holdings, t: Tid)
    requires Tracked(k, base, held) && t in held
    ensures k.s.prio[t] <= base[t]
    ensures held[t] == [] ==> k.s.prio[t] == base[t]
    ensures forall i :: 0 <= i < |held[t]| ==> held[t][i] < |k.mutex| && k.s.prio[t] <= k.mutex[held[t][i]].ceiling
  {
    assert PrioOk(k, base[t], t, held[t]);
    EffectiveBelow(base[t], k.mutex, held[t]);
    forall i | 0 <= i < |held[t]|
      ensures held[t][i] < |k.mutex|
    {
      assert HoldsAt(k, base[t], t, held[t], i);
    }
  }

  /** base[j] and held[j] are the base priorities and what is held before step j. */
  ghost predicate Recorded(ks: seq<Kernel>, es: seq<Step>, base: seq<map<Tid, nat>>, held: seq<Holdings>, j: nat)
    requires j < |es| && j + 1 < |base| == |held| && j < |ks|
  {
    base[j + 1] == BaseAfter(base[j], es[j]) && held[j + 1] == HeldAfter(ks[j], held[j], es[j])
  }

  /** A run with releases in LIFO order. */
  ghost predicate LifoRun(ks: seq<Kernel>, es: seq<Step>, base: seq<map<Tid, nat>>, held: seq<Holdings>) {
    && Interleaving(ks, es) && |base| == |held| == |ks|
    && forall j :: 0 <= j < |es| ==> LifoAt(ks, es, base, held, j)
  }

  ghost predicate LifoAt(ks: seq<Kernel>, es: seq<Step>, base: seq<map<Tid, nat>>, held: seq<Holdings>, j: nat)
    requires j < |es| && j + 1 < |base| == |held| && j < |ks|
  {
    Lifo(ks[j], held[j], es[j]) && Recorded(ks, es, base, held, j)
  }

  /** Priorities are right over every such run from a kernel in order. */
  lemma {:induction false} PrioritiesOverRuns(ks: seq<Kernel>, es: seq<Step>, base: seq<map<Tid, nat>>,
                                                held: seq<Holdings>, i: nat)
    requires LifoRun(ks, es, base, held) && KernelOk(ks[0]) && Tracked(ks[0], base[0], held[0]) && i < |ks|
    ensures Tracked(ks[i], base[i], held[i])
  {
    hide KernelOk, Enabled, Moves, Apply, Tracked, Lifo, HeldAfter, BaseAfter;
    if i > 0 {
      EveryInterleaving(ks, es, i - 1);
      PrioritiesOverRuns(ks, es, base, held, i - 1);
      assert LifoAt(ks, es, base, held, i - 1);
      TrackedKept(ks[i - 1], es[i - 1], base[i - 1], held[i - 1]);
    }
  }

  // ----- no contention

  ghost predicate Holder(held: Holdings, t: Tid) {
    t in held && held[t] != []
  }

  /** Two holders are not boosted past each other: the base priority of one is no worse than the other's present one. */
  ghost predicate Stacked(k: Kernel, base: map<Tid, nat>, u: Tid, v: Tid)
    requires u in base && v in base && u in k.s.prio && v in k.s.prio
  {
    base[u] <= k.s.prio[v] || base[v] <= k.s.prio[u]
  }

  ghost predicate HolderOk(k: Kernel, base: map<Tid, nat>, held: Holdings, u: Tid)
    requires u in held && u in base && u in k.s.prio && k.s.current in k.s.prio
  {
    && k.s.IsReady(u)
    && k.s.prio[k.s.current] <= k.s.prio[u]
    && forall i :: 0 <= i < |held[u]| ==> held[u][i] < |k.mutex| && k.mutex[held[u][i]].ceiling < base[u]
  }

  /** Holders are ready, none is more urgent than the running thread, and nobody waits for a protected mutex. */
  ghost predicate Uncontended(k: Kernel, base: map<Tid, nat>, held: Holdings) {
    && KernelOk(k) && Tracked(k, base, held)
    && (forall u :: Holder(held, u) ==> HolderOk(k, base, held, u))
    && (forall u, v :: Holder(held, u) && Holder(held, v) && u != v ==> Stacked(k, base, u, v))
    && (forall m :: 0 <= m < |k.mutex| && k.mutex[m].protect ==> k.waiters[m] == [])
  }

  /**
   What is asked of programs: the ceiling of a mutex is more urgent than the base priority of each of its users,
   releases are LIFO, and a thread does not suspend itself, wait or end while it holds a protected mutex.
   */
  ghost predicate Disciplined(k: Kernel, base: map<Tid, nat>, held: Holdings, e: Step) {
    var t := k.s.current;
    && Allowed(k, e) && t in base && t in held
    && Lifo(k, held, e)
    && match e
       case Lock(m) =>
         if k.mutex[m].protect then
           k.mutex[m].ceiling < base[t] && (k.mutex[m].owner == t ==> !k.mutex[m].kind.Normal?)
         else
           k.mutex[m].owner == NULL || (k.mutex[m].owner == t && !k.mutex[m].kind.Normal?) || held[t] == []
       case TryLock(m) => k.mutex[m].protect ==> k.mutex[m].ceiling < base[t]
       case CondWait(c, m) => held[t] == []
       case Sleep => held[t] == []
       case Exit => held[t] == []
       case _ => true
  }

  // A holder is boosted strictly above its base priority.
  lemma Boosted(k: Kernel, base: map<Tid, nat>, held: Holdings, u: Tid)
    requires Uncontended(k, base, held) && Holder(held, u)
    ensures k.s.prio[u] < base[u]
  {
  }

  // The running thread, at its base priority or above, is no less urgent in base priority than any other holder.
  lemma RunnerStacked(k: Kernel, base: map<Tid, nat>, held: Holdings, u: Tid)
    requires Uncontended(k, base, held) && Holder(held, u) && u != k.s.current && k.s.current in held
    ensures base[k.s.current] <= k.s.prio[u]
  {
    var t := k.s.current;
    assert HolderOk(k, base, held, u);
    BaseAgain(k, base, held, t);
    Boosted(k, base, held, u);
    if Holder(held, t) {
      assert Stacked(k, base, t, u);
    }
  }

  /** The immediate ceiling theorem: no thread ever finds a protected mutex in another thread's hands. */
  lemma NeverContended(k: Kernel, base: map<Tid, nat>, held: Holdings, e: Step)
    requires Uncontended(k, base, held) && Disciplined(k, base, held, e)
    requires (e.Lock? || e.TryLock?) && k.mutex[e.m].protect
    ensures k.mutex[e.m].owner == NULL || k.mutex[e.m].owner == k.s.current
    ensures e.Lock? ==> !LockStep(k, e.m).1.Blocked?
  {
    var t, m := k.s.current, e.m;
    var u := k.mutex[m].owner;
    if u != NULL && u != t {
      assert OwnedOk(k, held, m);
      RunnerStacked(k, base, held, u);
      HeldBound(k, base, held, u, m);
    }
  }

  lemma HeldBound(k: Kernel, base: map<Tid, nat>, held: Holdings, u: Tid, m: nat)
    requires Tracked(k, base, held) && u in held && m in held[u]
    ensures m < |k.mutex| && k.s.prio[u] <= k.mutex[m].ceiling
  {
    BaseAgain(k, base, held, u);
    var i :| 0 <= i < |held[u]| && held[u][i] == m;
    assert k.s.prio[u] <= k.mutex[held[u][i]].ceiling;
  }

  // ----- the protocol keeps it so

  // After a step the most urgent ready thread runs, or the same thread goes on at the same priority.
  lemma WhoRunsNext(k: Kernel, e: Step)
    requires Enabled(k, e)
    ensures var k', t := Apply(k, e), k.s.current;
            RunsMostUrgent(k'.s) || (k'.s.current == t && k'.s.prio == k.s.prio && !Stops(k, e))
  {
    hide RunsMostUrgent;
    match e
    case Lock(m) =>
      if k.mutex[m].owner == NULL {
        AcquireRuns(k, m, 1);
      } else {
        SuspendOk(k.s, k.s.current);
        ScheduledRuns(Suspend(k.s, k.s.current));
      }
    case TryLock(m) => if k.mutex[m].owner == NULL { AcquireRuns(k, m, k.mutex[m].counter); }
    case Unlock(m) => ReleaseRuns(k, m);
    case CondWait(c, m) =>
      if k.mutex[m].owner == k.s.current {
        UnlockOk(k, m);
        UnlockShaped(k, m);
        var s1 := UnlockStep(k, m).0.s;
        SuspendOk(s1, k.s.current);
        ScheduledRuns(Suspend(s1, k.s.current));
      }
    case Signal(c) =>
      var ws := k.conds[c];
      if ws != [] {
        ActivateFrame(k.s, ws);
        ActivateOk(k.s, ws[0]);
        ScheduledRuns(Activate(k.s, ws[0]));
      } else {
        ScheduledRuns(k.s);
      }
    case Broadcast(c) =>
      ActivateAllOk(k.s, k.conds[c]);
      ActivateAllFrame(k.s, k.conds[c]);
      ScheduledRuns(ActivateAll(k.s, k.conds[c]));
    case YieldCpu =>
      TailOk(k.s);
      var q := RemoveFrom(k.s.queues, k.s.current);
      ScheduledRuns(k.s.(queues := InsertTail(q, k.s.prio[k.s.current], k.s.current)));
    case Sleep =>
      SuspendOk(k.s, k.s.current);
      ScheduledRuns(Suspend(k.s, k.s.current));
    case Exit =>
      SuspendOk(k.s, k.s.current);
      ScheduledRuns(Finish(k.s, k.s.current));
    case Wake(t) =>
      ActivateOk(k.s, t);
      ScheduledRuns(Activate(k.s, t));
    case Create(t, prio) => StartRuns(k.s, t, prio);
  }

  lemma StartRuns(s: Sched, t: Tid, prio: nat)
    requires Ok(s) && s.nesting == 0 && t != NULL && !s.Known(t) && prio < PRIORITIES
    ensures RunsMostUrgent(Start(Register(s, t), t, prio))
  {
    RegisterOk(s, t);
    var s1 := Register(s, t);
    ChangePrioOk(s1, t, prio);
    ActivateOk(ChangePrio(s1, t, prio), t);
    ScheduledRuns(Activate(ChangePrio(s1, t, prio), t));
  }

  lemma ScheduledRuns(s: Sched)
    requires Ok(s) && s.nesting == 0
    ensures RunsMostUrgent(Schedule(s))
  {
    ScheduleOk(s);
  }

  lemma AcquireRuns(k: Kernel, m: nat, counter: int)
    requires KernelOk(k) && m < |k.mutex|
    ensures var s' := Acquire(k, m, counter).s; RunsMostUrgent(s') || (s'.current == k.s.current && s'.prio == k.s.prio)
  {
    var t, M := k.s.current, k.mutex[m];
    if M.protect && k.s.prio[t] > M.ceiling {
      ChangePrioOk(k.s, t, M.ceiling);
      ScheduledRuns(ChangePrio(k.s, t, M.ceiling));
    }
  }

  lemma ReleaseRuns(k: Kernel, m: nat)
    requires KernelOk(k) && m < |k.mutex|
    ensures var s' := UnlockStep(k, m).0.s; RunsMostUrgent(s') || (s'.current == k.s.current && s'.prio == k.s.prio)
  {
    var t, M, ws := k.s.current, k.mutex[m], k.waiters[m];
    ActivateAllOk(k.s, ws);
    ActivateAllFrame(k.s, ws);
    var s1 := ActivateAll(k.s, ws);
    if M.protect && M.ownerPrio != s1.prio[t] {
      ChangePrioOk(s1, t, M.ownerPrio);
      ScheduledRuns(ChangePrio(s1, t, M.ownerPrio));
    }
  }

  // A disciplined thread that stops holds nothing, before and after.
  lemma StoppedHoldsNothing(k: Kernel, base: map<Tid, nat>, held: Holdings, e: Step)
    requires Uncontended(k, base, held) && Disciplined(k, base, held, e) && Stops(k, e)
    ensures held[k.s.current] == [] && HeldAfter(k, held, e) == held
  {
    if e.Lock? && k.mutex[e.m].protect {
      NeverContended(k, base, held, e);
    }
  }

  lemma HolderKept(k: Kernel, base: map<Tid, nat>, held: Holdings, e: Step, u: Tid)
    requires Uncontended(k, base, held) && Disciplined(k, base, held, e) && !e.Create?
    requires Tracked(Apply(k, e), base, HeldAfter(k, held, e)) && KernelOk(Apply(k, e))
    requires Holder(HeldAfter(k, held, e), u)
    ensures HolderOk(Apply(k, e), base, HeldAfter(k, held, e), u)
  {
    var k', t, held' := Apply(k, e), k.s.current, HeldAfter(k, held, e);
    OthersGoOn(k, e, u);
    WhoRunsNext(k, e);
    if Stops(k, e) {
      StoppedHoldsNothing(k, base, held, e);
    }
    CeilingsBelow(k, base, held, e, u);
    if u != t {
      assert HolderOk(k, base, held, u);
    } else if Holder(held, t) {
      assert HolderOk(k, base, held, t);
    }
  }

  lemma CeilingsBelow(k: Kernel, base: map<Tid, nat>, held: Holdings, e: Step, u: Tid)
    requires Uncontended(k, base, held) && Disciplined(k, base, held, e) && !e.Create? && u in held
    ensures var held' := HeldAfter(k, held, e);
            forall i :: 0 <= i < |held'[u]| ==>
              held'[u][i] < |Apply(k, e).mutex| && Apply(k, e).mutex[held'[u][i]].ceiling < base[u]
  {
    assert Holder(held, u) ==> HolderOk(k, base, held, u);
    SameCeilings(k, e);
    NewlyHeld(k, held, e, u);
    hide Apply, KernelOk, Tracked, HeldAfter;
  }

  // A thread holds what it held before, and at most the protected mutex it has just locked.
  lemma NewlyHeld(k: Kernel, held: Holdings, e: Step, u: Tid)
    requires !e.Create? && u in held
    ensures var held' := HeldAfter(k, held, e);
            forall i :: 0 <= i < |held'[u]| ==>
              (i < |held[u]| && held'[u][i] == held[u][i])
              || ((e.Lock? || e.TryLock?) && u == k.s.current && held'[u][i] == e.m < |k.mutex| && k.mutex[e.m].protect)
  {
  }

  lemma SameCeilings(k: Kernel, e: Step)
    requires Enabled(k, e)
    ensures var k' := Apply(k, e);
            |k'.mutex| == |k.mutex| && forall m :: 0 <= m < |k.mutex| ==>
              k'.mutex[m].ceiling == k.mutex[m].ceiling && k'.mutex[m].protect == k.mutex[m].protect
  {
    hide Ok, Waiting, MutexOk, KnownAll;
  }

  lemma NobodyWaits(k: Kernel, base: map<Tid, nat>, held: Holdings, e: Step, m: nat)
    requires Uncontended(k, base, held) && Disciplined(k, base, held, e) && m < |k.mutex| && k.mutex[m].protect
    ensures m < |Apply(k, e).waiters| && Apply(k, e).waiters[m] == []
  {
    if (e.Lock? || e.TryLock?) && e.m == m {
      NeverContended(k, base, held, e);
    }
  }

  lemma CreateUncontended(k: Kernel, base: map<Tid, nat>, held: Holdings, e: Step)
    requires Uncontended(k, base, held) && Enabled(k, e) && e.Create? && KernelOk(Apply(k, e))
    requires Tracked(Apply(k, e), BaseAfter(base, e), HeldAfter(k, held, e))
    ensures Uncontended(Apply(k, e), BaseAfter(base, e), HeldAfter(k, held, e))
  {
    CreateFrame(k, e);
    WhoRunsNext(k, e);
    var k', base', held' := Apply(k, e), BaseAfter(base, e), HeldAfter(k, held, e);
    hide Apply, Tracked, KernelOk, Stops;
    forall u | Holder(held', u)
      ensures HolderOk(k', base', held', u)
    {
      assert Holder(held, u) && HolderOk(k, base, held, u);
    }
    forall u, v | Holder(held', u) && Holder(held', v) && u != v
      ensures Stacked(k', base', u, v)
    {
      assert Holder(held, u) && Holder(held, v) && Stacked(k, base, u, v);
    }
  }

  /** Every disciplined step keeps the kernel uncontended. */
  lemma UncontendedKept(k: Kernel, base: map<Tid, nat>, held: Holdings, e: Step)
    requires Uncontended(k, base, held) && Disciplined(k, base, held, e)
    ensures Uncontended(Apply(k, e), BaseAfter(base, e), HeldAfter(k, held, e))
  {
    StepOk(k, e);
    TrackedKept(k, e, base, held);
    if e.Create? {
      CreateUncontended(k, base, held, e);
      return;
    }
    var k', held' := Apply(k, e), HeldAfter(k, held, e);
    SameCeilings(k, e);
    forall u | Holder(held', u)
      ensures HolderOk(k', base, held', u)
    {
      HolderKept(k, base, held, e, u);
    }
    forall u, v | Holder(held', u) && Holder(held', v) && u != v
      ensures Stacked(k', base, u, v)
    {
      StackedKept(k, base, held, e, u, v);
    }
    forall m | 0 <= m < |k'.mutex| && k'.mutex[m].protect
      ensures k'.waiters[m] == []
    {
      NobodyWaits(k, base, held, e, m);
    }
  }

  lemma StackedKept(k: Kernel, base: map<Tid, nat>, held: Holdings, e: Step, u: Tid, v: Tid)
    requires Uncontended(k, base, held) && Disciplined(k, base, held, e) && !e.Create? && u != v
    requires Holder(HeldAfter(k, held, e), u) && Holder(HeldAfter(k, held, e), v)
    ensures u in base && v in base && u in Apply(k, e).s.prio && v in Apply(k, e).s.prio
    ensures Stacked(Apply(k, e), base, u, v)
  {
    OthersGoOn(k, e, u);
    OthersGoOn(k, e, v);
    if u == k.s.current {
      RunnerStacked(k, base, held, v);
    } else if v == k.s.current {
      RunnerStacked(k, base, held, u);
    } else {
      assert Stacked(k, base, u, v);
    }
  }

  /** A run of disciplined programs from an uncontended kernel, such as one in which nothing is held. */
  ghost predicate DisciplinedRun(ks: seq<Kernel>, es: seq<Step>, base: seq<map<Tid, nat>>, held: seq<Holdings>) {
    && Interleaving(ks, es) && |base| == |held| == |ks|
    && Uncontended(ks[0], base[0], held[0])
    && forall j :: 0 <= j < |es| ==> DisciplinedAt(ks, es, base, held, j)
  }

  ghost predicate DisciplinedAt(ks: seq<Kernel>, es: seq<Step>, base: seq<map<Tid, nat>>, held: seq<Holdings>, j: nat)
    requires j < |es| && j + 1 < |base| == |held| && j < |ks|
  {
    Disciplined(ks[j], base[j], held[j], es[j]) && Recorded(ks, es, base, held, j)
  }

  /** In every such run, at every moment, no protected mutex has a waiter and no lock of one blocks. */
  lemma {:induction false} CeilingTheorem(ks: seq<Kernel>, es: seq<Step>, base: seq<map<Tid, nat>>,
                                            held: seq<Holdings>, i: nat)
    requires DisciplinedRun(ks, es, base, held) && i < |ks|
    ensures Uncontended(ks[i], base[i], held[i])
    ensures i < |es| && es[i].Lock? ==> es[i].m < |ks[i].mutex|
    ensures i < |es| && es[i].Lock? && ks[i].mutex[es[i].m].protect ==>
              ks[i].mutex[es[i].m].owner in {NULL, ks[i].s.current} && !LockStep(ks[i], es[i].m).1.Blocked?
  {
    hide LockStep, HeldAfter, BaseAfter, Apply, KernelOk, Tracked, Lifo, Moves, HolderOk, Stacked;
    if i > 0 {
      CeilingTheorem(ks, es, base, held, i - 1);
      assert DisciplinedAt(ks, es, base, held, i - 1);
      EveryInterleaving(ks, es, i - 1);
      UncontendedKept(ks[i - 1], base[i - 1], held[i - 1], es[i - 1]);
    }
    if i < |es| {
      assert DisciplinedAt(ks, es, base, held, i);
      if es[i].Lock? && ks[i].mutex[es[i].m].protect {
        NeverContended(ks[i], base[i], held[i], es[i]);
      }
    }
  }

  /** A kernel in which nothing is held, nobody waits and every thread has its base priority starts such a run. */
  lemma FreshKernel(k: Kernel, base: map<Tid, nat>)
    requires KernelOk(k) && base == k.s.prio && forall m :: 0 <= m < |k.mutex| ==> k.mutex[m].owner == NULL
    ensures Uncontended(k, base, map t | t in base :: [])
  {
    var held: Holdings := map t | t in base :: [];
    forall m | 0 <= m < |k.mutex|
      ensures OwnedOk(k, held, m) && k.waiters[m] == []
    {
      assert MutexOk(k, m);
    }
    forall t | t in held
      ensures PrioOk(k, base[t], t, held[t])
    {
    }
  }
}
