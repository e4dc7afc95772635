/**
 The scheduler (server/core/port/sched.c) and the interrupt entry that defers it
 (server/core/common/irqs-l4.c). `context_switch_to(n)` is the assignment of the
 current thread.
 */
module Scheduler {
  import opened Arithmetic
  import opened Links
  import opened ReadyQueues

  const SCHED_PENDING := 0x8000_0000
  const MIN_SCHED_PRIORITY := 1022  // the least urgent priority of a thread; 1023 is the idle thread's

  datatype ThreadState = Ready | Suspended | Finished

  datatype Sched = Sched(queues: Queues, state: map<Tid, ThreadState>, prio: map<Tid, nat>,
                         current: Tid, idle: Tid, nesting: nat)
  {
    predicate Known(t: Tid) {
      t in state && t in prio
    }

    predicate IsReady(t: Tid) {
      t in state && state[t].Ready?
    }

    /** The number of interrupt frames in progress: the low 31 bits of irq_nesting_counter. */
    function Depth(): nat {
      nesting % SCHED_PENDING
    }

    predicate Pending() {
      nesting >= SCHED_PENDING
    }
  }

  ghost predicate QueueOk(s: Sched, p: int)
    requires 0 <= p < |s.queues|
  {
    Distinct(s.queues[p]) && forall t :: t in s.queues[p] <==> s.IsReady(t) && t in s.prio && s.prio[t] == p
  }

  /** A thread is queued exactly when it is ready, and then only in the queue of its priority. */
  ghost predicate Ok(s: Sched) {
    && |s.queues| == PRIORITIES
    && s.state.Keys == s.prio.Keys && NULL !in s.state
    && s.Known(s.current) && s.Known(s.idle)
    && (forall t :: t in s.prio ==> s.prio[t] < PRIORITIES)
    && (forall p :: 0 <= p < PRIORITIES ==> QueueOk(s, p))
    && s.nesting < WORD
  }

  // ----- the operations of sched.c on the plain view

  function ChangePrio(s: Sched, t: Tid, prio: nat): Sched
    requires s.Known(t) && |s.queues| == PRIORITIES && prio < PRIORITIES
  {
    var q := RemoveFrom(s.queues, t);
    s.(prio := s.prio[t := prio], queues := if s.IsReady(t) then InsertHead(q, prio, t) else q)
  }

  function Suspend(s: Sched, t: Tid): Sched
    requires s.Known(t)
  {
    s.(queues := RemoveFrom(s.queues, t), state := if s.state[t].Finished? then s.state else s.state[t := Suspended])
  }

  function Activate(s: Sched, t: Tid): Sched
    requires s.Known(t) && |s.queues| == PRIORITIES && s.prio[t] < PRIORITIES
  {
    if s.state[t].Suspended? then s.(queues := InsertHead(s.queues, s.prio[t], t), state := s.state[t := Ready]) else s
  }

  function Finish(s: Sched, t: Tid): Sched
    requires s.Known(t)
  {
    s.(queues := RemoveFrom(s.queues, t), state := s.state[t := Finished])
  }

  /** scheduling(): deferred inside an interrupt, otherwise the head of the top queue runs. */
  function Schedule(s: Sched): Sched {
    if s.Depth() != 0 then
      s.(nesting := if s.Pending() then s.nesting else s.nesting + SCHED_PENDING)
    else
      var top := Top(s.queues);
      s.(current := if top < |s.queues| && s.queues[top] != [] then s.queues[top][0] else s.idle, nesting := 0)
  }

  function Yield(s: Sched): Sched
    requires s.Known(s.current) && |s.queues| == PRIORITIES && s.prio[s.current] < PRIORITIES
  {
    Schedule(s.(queues := InsertTail(RemoveFrom(s.queues, s.current), s.prio[s.current], s.current)))
  }

  /** create_pthread_struct: a new thread is suspended and has priority 0 until its attributes are set. */
  function Register(s: Sched, t: Tid): Sched {
    s.(state := s.state[t := Suspended], prio := s.prio[t := 0])
  }

  /** The end of pthread_create_sys: a new thread gets its priority and becomes ready, and the scheduler runs. */
  function Start(s: Sched, t: Tid, prio: nat): Sched
    requires s.Known(t) && |s.queues| == PRIORITIES && prio < PRIORITIES
  {
    Schedule(Activate(ChangePrio(s, t, prio), t))
  }

  // ----- they keep the invariant

  lemma RemovedOk(s: Sched, t: Tid, p: int)
    requires Ok(s) && 0 <= p < PRIORITIES
    ensures Distinct(RemoveFrom(s.queues, t)[p])
    ensures forall x :: x in RemoveFrom(s.queues, t)[p] <==> x in s.queues[p] && x != t
  {
    assert QueueOk(s, p);
    DeleteMembers(s.queues[p], t);
    DeleteDistinct(s.queues[p], t);
  }

  lemma {:induction false} DeleteDistinct(s: seq<Tid>, t: Tid)
    requires Distinct(s)
    ensures Distinct(Delete(s, t))
  {
    if s != [] {
      DeleteDistinct(s[1..], t);
      DeleteMembers(s[1..], t);
      assert s[0] !in s[1..];
    }
  }

  lemma ChangePrioOk(s: Sched, t: Tid, prio: nat)
    requires Ok(s) && s.Known(t) && prio < PRIORITIES
    ensures Ok(ChangePrio(s, t, prio))
  {
    var s' := ChangePrio(s, t, prio);
    forall p | 0 <= p < PRIORITIES
      ensures QueueOk(s', p)
    {
      assert QueueOk(s, p);
      RemovedOk(s, t, p);
    }
  }

  lemma SuspendOk(s: Sched, t: Tid)
    requires Ok(s) && s.Known(t)
    ensures Ok(Suspend(s, t)) && Ok(Finish(s, t))
  {
    var s', s'' := Suspend(s, t), Finish(s, t);
    forall p | 0 <= p < PRIORITIES
      ensures QueueOk(s', p) && QueueOk(s'', p)
    {
      assert QueueOk(s, p);
      RemovedOk(s, t, p);
    }
  }

  lemma ActivateOk(s: Sched, t: Tid)
    requires Ok(s) && s.Known(t)
    ensures Ok(Activate(s, t))
  {
    var s' := Activate(s, t);
    forall p | 0 <= p < PRIORITIES
      ensures QueueOk(s', p)
    {
      assert QueueOk(s, p);
    }
  }

  lemma RegisterOk(s: Sched, t: Tid)
    requires Ok(s) && t != NULL && !s.Known(t)
    ensures Ok(Register(s, t))
  {
    var s' := Register(s, t);
    forall p | 0 <= p < PRIORITIES
      ensures QueueOk(s', p)
    {
      assert QueueOk(s, p);
    }
  }

  lemma TopIsReady(s: Sched)
    requires Ok(s)
    ensures Top(s.queues) <= PRIORITIES
    ensures Top(s.queues) < PRIORITIES ==>
              var q := s.queues[Top(s.queues)]; q != [] && s.IsReady(q[0]) && s.prio[q[0]] == Top(s.queues)
    ensures forall t :: s.IsReady(t) ==> Top(s.queues) <= s.prio[t]
  {
    TopFromSkips(s.queues, 0);
    if Top(s.queues) < PRIORITIES {
      assert QueueOk(s, Top(s.queues));
    }
    forall t | s.IsReady(t)
      ensures Top(s.queues) <= s.prio[t]
    {
      assert QueueOk(s, s.prio[t]);
    }
  }

  /** Outside interrupts a most urgent ready thread becomes current, or idle if there is none; inside, it only asks. */
  lemma ScheduleOk(s: Sched)
    requires Ok(s)
    ensures Ok(Schedule(s))
    ensures var s' := Schedule(s);
            if s.Depth() == 0 then
              && s'.nesting == 0
              && (forall t :: s.IsReady(t) ==> s.IsReady(s'.current) && s.prio[s'.current] <= s.prio[t])
              && ((forall t :: !s.IsReady(t)) ==> s'.current == s.idle)
            else
              s'.current == s.current && s'.Depth() == s.Depth() && s'.Pending()
  {
    TopIsReady(s);
    var s' := Schedule(s);
    forall p | 0 <= p < PRIORITIES
      ensures QueueOk(s', p)
    {
      assert QueueOk(s, p);
    }
  }

  /** No ready thread is more urgent than the running one. */
  ghost predicate RunsMostUrgent(s: Sched) {
    forall t :: s.IsReady(t) && t in s.prio ==>
      s.IsReady(s.current) && s.current in s.prio && s.prio[s.current] <= s.prio[t]
  }

  // ----- what they do to the thread and to the others

  /** The other threads keep their states and priorities, and each queue its order of them. */
  ghost predicate OthersKept(s: Sched, s': Sched, t: Tid) {
    && s'.idle == s.idle && |s'.queues| == |s.queues|
    && s'.state.Keys == s.state.Keys + {t} && s'.prio.Keys == s.prio.Keys + {t}
    && (forall u :: u in s.state && u != t ==> s'.state[u] == s.state[u])
    && (forall u :: u in s.prio && u != t ==> s'.prio[u] == s.prio[u])
    && (forall p :: 0 <= p < |s.queues| ==> Delete(s'.queues[p], t) == Delete(s.queues[p], t))
  }

  ghost predicate InNoQueue(s: Sched, t: Tid) {
    forall p :: 0 <= p < |s.queues| ==> t !in s.queues[p]
  }

  // Deleting a thread twice, or after it has been put at either end, is deleting it once.
  lemma {:induction false} DeleteAgain(q: seq<Tid>, t: Tid)
    ensures Delete(Delete(q, t), t) == Delete(q, t) == Delete([t] + q, t) == Delete(q + [t], t)
  {
    DeleteMembers(Delete(q, t), t);
    DeleteMembers(q, t);
    assert ([t] + q)[1..] == q;
    DeleteEnd(q, t);
  }

  lemma {:induction false} DeleteEnd(q: seq<Tid>, t: Tid)
    ensures Delete(q + [t], t) == Delete(q, t)
  {
    if q == [] {
      assert ([] + [t])[1..] == [];
    } else {
      assert (q + [t])[1..] == q[1..] + [t];
      DeleteEnd(q[1..], t);
    }
  }

  lemma RemovedEverywhere(s: Sched, t: Tid)
    ensures forall p :: 0 <= p < |s.queues| ==>
              t !in RemoveFrom(s.queues, t)[p] && Delete(RemoveFrom(s.queues, t)[p], t) == Delete(s.queues[p], t)
  {
    forall p | 0 <= p < |s.queues|
      ensures t !in RemoveFrom(s.queues, t)[p] && Delete(RemoveFrom(s.queues, t)[p], t) == Delete(s.queues[p], t)
    {
      DeleteMembers(s.queues[p], t);
      DeleteAgain(s.queues[p], t);
    }
  }

  /** suspend_thread: the thread is in no queue, and SUSPENDED unless it has finished. */
  lemma SuspendEffect(s: Sched, t: Tid)
    requires Ok(s) && s.Known(t)
    ensures var s' := Suspend(s, t);
            && s'.state[t] == (if s.state[t] == Finished then Finished else Suspended)
            && InNoQueue(s', t) && OthersKept(s, s', t)
            && s'.prio[t] == s.prio[t] && s'.current == s.current && s'.nesting == s.nesting
  {
    hide QueueOk;
    RemovedEverywhere(s, t);
  }

  /** finish_thread: it is in no queue, and FINISHED. */
  lemma FinishEffect(s: Sched, t: Tid)
    requires Ok(s) && s.Known(t)
    ensures var s' := Finish(s, t);
            && s'.state[t] == Finished && InNoQueue(s', t) && OthersKept(s, s', t)
            && s'.prio[t] == s.prio[t] && s'.current == s.current && s'.nesting == s.nesting
  {
    hide QueueOk;
    RemovedEverywhere(s, t);
  }

  /** activate_thread: a suspended thread is READY and in front of the queue of its priority; others are left alone. */
  lemma ActivateEffect(s: Sched, t: Tid)
    requires Ok(s) && s.Known(t)
    ensures s.state[t] != Suspended ==> Activate(s, t) == s
    ensures s.state[t] == Suspended ==>
              var s', p := Activate(s, t), s.prio[t];
              && s'.state[t] == Ready && OthersKept(s, s', t)
              && p < |s'.queues| && s'.queues[p] != [] && s'.queues[p][0] == t
              && s'.prio[t] == p && s'.current == s.current && s'.nesting == s.nesting
  {
    forall p | 0 <= p < |s.queues|
      ensures Delete([t] + s.queues[p], t) == Delete(s.queues[p], t)
    {
      DeleteAgain(s.queues[p], t);
    }
  }

  /** change_thread_prio: the new priority, the same state, and if READY in front of the queue of that priority only. */
  lemma ChangePrioEffect(s: Sched, t: Tid, prio: nat)
    requires Ok(s) && s.Known(t) && prio < PRIORITIES
    ensures var s' := ChangePrio(s, t, prio);
            && s'.prio[t] == prio && s'.state[t] == s.state[t] && OthersKept(s, s', t)
            && (forall p :: 0 <= p < |s'.queues| && p != prio ==> t !in s'.queues[p])
            && (if s.IsReady(t) then s'.queues[prio] != [] && s'.queues[prio][0] == t else t !in s'.queues[prio])
            && s'.current == s.current && s'.nesting == s.nesting
  {
    RemovedEverywhere(s, t);
    hide QueueOk;
    DeleteAgain(Delete(s.queues[prio], t), t);
    DeleteAgain(s.queues[prio], t);
  }

  /** scheduling changes nothing but the running thread and the counter. */
  lemma ScheduleEffect(s: Sched)
    ensures var s' := Schedule(s);
            s'.queues == s.queues && s'.state == s.state && s'.prio == s.prio && s'.idle == s.idle
  {
  }

  /** pthread_yield_sys: the caller is behind all others of its priority. */
  lemma YieldEffect(s: Sched)
    requires Ok(s) && s.IsReady(s.current)
    ensures var s', t := Yield(s), s.current;
            && OthersKept(s, s', t) && s'.state[t] == Ready && s'.prio[t] == s.prio[t]
            && s'.queues[s.prio[t]] != [] && s'.queues[s.prio[t]][|s'.queues[s.prio[t]]| - 1] == t
  {
    var t := s.current;
    RemovedEverywhere(s, t);
    hide QueueOk;
    DeleteAgain(Delete(s.queues[s.prio[t]], t), t);
    DeleteAgain(s.queues[s.prio[t]], t);
  }

  /** create_pthread_struct: the newcomer is suspended and in no queue. */
  lemma RegisterEffect(s: Sched, t: Tid)
    requires Ok(s) && !s.Known(t)
    ensures var s' := Register(s, t);
            && s'.state[t] == Suspended && s'.prio[t] == 0 && InNoQueue(s', t) && OthersKept(s, s', t)
            && s'.current == s.current && s'.nesting == s.nesting
  {
    forall p | 0 <= p < PRIORITIES
      ensures t !in s.queues[p]
    {
      assert QueueOk(s, p);
    }
  }

  /** A finished thread stays finished and unqueued, whatever else is done to it. */
  lemma FinishedIsAbsorbing(s: Sched, t: Tid, prio: nat)
    requires Ok(s) && s.Known(t) && s.state[t].Finished? && prio < PRIORITIES
    ensures Activate(s, t) == s && Suspend(s, t) == s
    ensures ChangePrio(s, t, prio) == s.(prio := s.prio[t := prio])
  {
    assert !Listed(s.queues, t) by {
      forall p | 0 <= p < PRIORITIES
        ensures t !in s.queues[p]
      {
        assert QueueOk(s, p);
      }
    }
    RemoveUnlisted(s.queues, t);
  }

  /** pthread_yield_sys keeps the invariant exactly if its caller is ready: a suspended idle thread must not yield. */
  lemma YieldOk(s: Sched)
    requires Ok(s)
    ensures Ok(Yield(s)) <==> s.IsReady(s.current)
  {
    var t := s.current;
    var q := InsertTail(RemoveFrom(s.queues, t), s.prio[t], t);
    var s1 := s.(queues := q);
    RemovedOk(s, t, s.prio[t]);
    assert QueueOk(s, s.prio[t]);
    assert t in q[s.prio[t]];
    if s.IsReady(t) {
      TailOk(s);
      ScheduleOk(s1);
    } else {
      assert !QueueOk(Yield(s), s.prio[t]);
    }
  }

  // ----- yielding round the top queue

  function Rotate(q: seq<Tid>, k: nat): seq<Tid>
    requires k <= |q|
  {
    q[k..] + q[..k]
  }

  /** The state after scheduling(): the head of the top queue runs, outside interrupts. */
  ghost predicate HeadRuns(s: Sched) {
    Ok(s) && s.nesting == 0 && Top(s.queues) < PRIORITIES && s.queues[Top(s.queues)] != []
    && s.current == s.queues[Top(s.queues)][0]
  }

  /** k yields in a row, each by the thread that is then running. */
  ghost function Yields(s: Sched, k: nat): Sched
    decreases k
  {
    if k == 0 || !HeadRuns(s) then s else Yields(Yield(s), k - 1)
  }

  lemma YieldRotates(s: Sched)
    requires HeadRuns(s)
    ensures var p := Top(s.queues); var r := Rotate(s.queues[p], 1);
            && Yield(s) == s.(queues := s.queues[p := r], current := r[0])
            && HeadRuns(Yield(s)) && Top(Yield(s).queues) == p
  {
    var p, t := Top(s.queues), s.current;
    TopIsReady(s);
    assert QueueOk(s, p);
    forall d | 0 <= d < PRIORITIES && d != p
      ensures t !in s.queues[d]
    {
      assert QueueOk(s, d);
    }
    RemoveListed(s.queues, p, 0);
    var r := Rotate(s.queues[p], 1);
    assert Without(s.queues[p], 0) + [t] == r;
    var q := InsertTail(RemoveFrom(s.queues, t), p, t);
    assert q == s.queues[p := r];
    TopFromSkips(s.queues, 0);
    TopFromIs(q, 0, p);
    YieldOk(s);
  }

  lemma RotateOnce(q: seq<Tid>, m: nat)
    requires q != []
    ensures |Rotate(q, 1)| == |q| && Rotate(Rotate(q, 1), m % |q|) == Rotate(q, (m + 1) % |q|)
  {
    var n, r := |q|, m % |q|;
    if r + 1 < n {
      assert (m + 1) % n == r + 1 by { SuccessorModulo(m, n); }
    } else {
      assert (m + 1) % n == 0 by { SuccessorModulo(m, n); }
    }
  }

  /** k yields rotate the top queue by k: the threads of the highest priority take turns. */
  lemma {:induction false} YieldsRotate(s: Sched, k: nat)
    requires HeadRuns(s)
    ensures var p := Top(s.queues); var n := |s.queues[p]|; var r := Rotate(s.queues[p], k % n);
            Yields(s, k) == s.(queues := s.queues[p := r], current := r[0])
    decreases k
  {
    var p := Top(s.queues);
    var q := s.queues[p];
    if k == 0 {
      assert Rotate(q, 0) == q && s.queues[p := q] == s.queues;
    } else {
      YieldRotates(s);
      YieldsRotate(Yield(s), k - 1);
      RotateOnce(q, k - 1);
    }
  }

  // ----- do_irq

  /** What an interrupt handler may do to the scheduler, including being interrupted itself. */
  datatype Act = Wake(t: Tid) | Stop(t: Tid) | Reschedule | Irq(handler: seq<Act>)

  /** One action of a handler; a pointer to no thread is ignored. */
  function RunAct(s: Sched, a: Act): Sched
    decreases a, 2
  {
    match a
    case Wake(t) => if s.Known(t) && |s.queues| == PRIORITIES && s.prio[t] < PRIORITIES then Activate(s, t) else s
    case Stop(t) => if s.Known(t) then Suspend(s, t) else s
    case Reschedule => Schedule(s)
    case Irq(h) => DoIrq(s, h)
  }

  function RunActs(s: Sched, acts: seq<Act>): Sched
    decreases acts, 0
  {
    if acts == [] then s else RunActs(RunAct(s, acts[0]), acts[1..])
  }

  /** do_irq: one more frame, the handler, one frame less, and the deferred scheduling if this was the outermost. */
  function DoIrq(s: Sched, handler: seq<Act>): Sched
    decreases handler, 1
  {
    var s1 := RunActs(s.(nesting := (s.nesting + 1) % WORD), handler);
    var s2 := s1.(nesting := (s1.nesting + WORD - 1) % WORD);
    if s2.nesting == SCHED_PENDING then Schedule(s2) else s2
  }

  /** What the actions of a handler do to the threads they name. */
  lemma ActEffect(s: Sched, a: Act)
    requires Ok(s) && (a.Wake? || a.Stop?) && s.Known(a.t)
    ensures a.Wake? ==> RunAct(s, a).state == if s.state[a.t] == Suspended then s.state[a.t := Ready] else s.state
    ensures a.Stop? ==> RunAct(s, a).state == if s.state[a.t] == Finished then s.state else s.state[a.t := Suspended]
  {
  }

  /** A request for rescheduling was made somewhere in the handler or in an interrupt nested in it. */
  predicate Requests(acts: seq<Act>) {
    acts != [] && (RequestsAct(acts[0]) || Requests(acts[1..]))
  }

  predicate RequestsAct(a: Act) {
    match a
    case Wake(_) => false
    case Stop(_) => false
    case Reschedule => true
    case Irq(h) => Requests(h)
  }

  /** How deep interrupts nest in the handler. */
  function Nests(acts: seq<Act>): nat {
    if acts == [] then 0
    else if NestsAct(acts[0]) > Nests(acts[1..]) then NestsAct(acts[0])
    else Nests(acts[1..])
  }

  function NestsAct(a: Act): nat {
    match a
    case Wake(_) => 0
    case Stop(_) => 0
    case Reschedule => 0
    case Irq(h) => 1 + Nests(h)
  }

  /** Inside an interrupt nothing switches threads, frames balance, and every request is remembered. */
  ghost predicate KeptInside(s: Sched, s': Sched, requested: bool) {
    && Ok(s')
    && s'.current == s.current && s'.idle == s.idle
    && s'.Depth() == s.Depth()
    && (s'.Pending() <==> s.Pending() || requested)
  }

  lemma {:induction false} ActsKept(s: Sched, acts: seq<Act>)
    requires Ok(s) && s.Depth() >= 1 && s.Depth() + Nests(acts) < SCHED_PENDING
    ensures KeptInside(s, RunActs(s, acts), Requests(acts))
    decreases acts, 0
  {
    if acts != [] {
      ActKept(s, acts[0]);
      ActsKept(RunAct(s, acts[0]), acts[1..]);
    }
  }

  lemma {:induction false} ActKept(s: Sched, a: Act)
    requires Ok(s) && s.Depth() >= 1 && s.Depth() + NestsAct(a) < SCHED_PENDING
    ensures KeptInside(s, RunAct(s, a), RequestsAct(a))
    decreases a, 2
  {
    match a
    case Wake(t) => if s.Known(t) { ActivateOk(s, t); }
    case Stop(t) => if s.Known(t) { SuspendOk(s, t); }
    case Reschedule => ScheduleOk(s);
    case Irq(h) => IrqKept(s, h);
  }

  // Counting one frame up or down touches neither the pending bit nor the word's bounds.
  lemma FrameCount(n: nat)
    requires n < WORD && n % SCHED_PENDING + 1 < SCHED_PENDING
    ensures (n + 1) % WORD == n + 1 < WORD && (n + 1 + WORD - 1) % WORD == n
    ensures (n + 1) % SCHED_PENDING == n % SCHED_PENDING + 1
    ensures n + 1 >= SCHED_PENDING <==> n >= SCHED_PENDING
  {
  }

  lemma SameWord(n: nat, m: nat)
    requires n < WORD && m < WORD && n % SCHED_PENDING == m % SCHED_PENDING
    ensures n == m <==> (n >= SCHED_PENDING <==> m >= SCHED_PENDING)
    ensures n == if n >= SCHED_PENDING then SCHED_PENDING + n % SCHED_PENDING else n % SCHED_PENDING
  {
  }

  // The frame of one do_irq around its handler.
  lemma {:induction false} FrameKept(s: Sched, handler: seq<Act>) returns (s2: Sched)
    requires Ok(s) && s.Depth() + 1 + Nests(handler) < SCHED_PENDING
    ensures DoIrq(s, handler) == if s2.nesting == SCHED_PENDING then Schedule(s2) else s2
    ensures KeptInside(s, s2, Requests(handler))
    decreases handler, 1
  {
    hide Ok, RunActs, Requests, Nests, Schedule;
    EnterFrame(s);
    var s0 := s.(nesting := s.nesting + 1);
    ActsKept(s0, handler);
    var s1 := RunActs(s0, handler);
    LeaveFrame(s1);
    s2 := s1.(nesting := s1.nesting - 1);
  }

  lemma EnterFrame(s: Sched)
    requires Ok(s) && s.Depth() + 1 < SCHED_PENDING
    ensures (s.nesting + 1) % WORD == s.nesting + 1
    ensures var s' := s.(nesting := s.nesting + 1);
            Ok(s') && s'.Depth() == s.Depth() + 1 && (s'.Pending() <==> s.Pending())
  {
    OkWord(s);
    FrameCount(s.nesting);
    NestingOk(s, s.nesting + 1);
    hide Ok;
  }

  lemma LeaveFrame(s: Sched)
    requires Ok(s) && s.Depth() >= 1
    ensures s.nesting >= 1 && (s.nesting + WORD - 1) % WORD == s.nesting - 1
    ensures var s' := s.(nesting := s.nesting - 1);
            Ok(s') && s'.Depth() == s.Depth() - 1 && (s'.Pending() <==> s.Pending())
  {
    OkWord(s);
    LastFrame(s.nesting);
    FrameCount(s.nesting - 1);
    NestingOk(s, s.nesting - 1);
    hide Ok;
  }

  lemma LastFrame(n: nat)
    requires n % SCHED_PENDING >= 1 && n < WORD
    ensures n >= 1 && (n - 1) % SCHED_PENDING + 1 < SCHED_PENDING && (n - 1) % SCHED_PENDING == n % SCHED_PENDING - 1
  {
  }

  lemma OkWord(s: Sched)
    requires Ok(s)
    ensures s.nesting < WORD
  {
  }

  lemma NestingOk(s: Sched, n: nat)
    requires Ok(s) && n < WORD
    ensures Ok(s.(nesting := n))
  {
    var s' := s.(nesting := n);
    forall p | 0 <= p < PRIORITIES
      ensures QueueOk(s', p)
    {
      assert QueueOk(s, p);
    }
  }

  lemma {:induction false} IrqKept(s: Sched, handler: seq<Act>)
    requires Ok(s) && s.Depth() >= 1 && s.Depth() + 1 + Nests(handler) < SCHED_PENDING
    ensures KeptInside(s, DoIrq(s, handler), Requests(handler))
    decreases handler, 2
  {
    var s2 := FrameKept(s, handler);
  }

  /**
   The outermost do_irq serves a request raised anywhere in its handler, at whatever depth: it ends with
   the counter at zero and a most urgent ready thread (or idle) current. Without a request nothing is switched.
   */
  lemma RequestsAreServed(s: Sched, handler: seq<Act>)
    requires Ok(s) && s.Depth() == 0 && 1 + Nests(handler) < SCHED_PENDING
    ensures var s' := DoIrq(s, handler);
            && Ok(s') && s'.Depth() == 0
            && if s.Pending() || Requests(handler) then
                 && s'.nesting == 0
                 && (forall t :: s'.IsReady(t) ==> s'.IsReady(s'.current) && s'.prio[s'.current] <= s'.prio[t])
                 && ((forall t :: !s'.IsReady(t)) ==> s'.current == s'.idle)
               else
                 s'.nesting == s.nesting && s'.current == s.current
  {
    var s2 := FrameKept(s, handler);
    ScheduleOk(s2);
    OkWord(s);
    OkWord(s2);
    hide Ok, Schedule;
    SameWord(s2.nesting, SCHED_PENDING);
    SameWord(s2.nesting, s.nesting);
  }

  /** A yield by the idle thread of the initial state queues a thread that is not ready. */
  lemma IdleMustNotYield(t: Tid)
    requires t != NULL
    ensures Ok(Idle(t)) && !Ok(Yield(Idle(t)))
  {
    IdleOk(t);
    YieldOk(Idle(t));
  }

  lemma IdleOk(t: Tid)
    requires t != NULL
    ensures Ok(Idle(t))
  {
    forall p | 0 <= p < PRIORITIES
      ensures QueueOk(Idle(t), p)
    {
    }
  }

  // ----- the scheduler's state

  /** Only the idle thread exists; it is current, suspended and in no queue. */
  function Idle(idleThread: Tid): Sched {
    Sched(seq(PRIORITIES, _ => []), map[idleThread := Suspended], map[idleThread := 0], idleThread, idleThread, 0)
  }

  class Scheduler {
    const ready: ReadyStruct
    var state: map<Tid, ThreadState>
    var prio: map<Tid, nat>
    var current: Tid
    var idle: Tid
    var nesting: nat  // irq_nesting_counter

    ghost function View(): Sched
      reads this, ready
    {
      Sched(ready.queues, state, prio, current, idle, nesting)
    }

    ghost predicate Valid()
      reads this, ready
    {
      ready.Valid() && ready.cell.Keys == state.Keys && Ok(View())
    }

    /** init_sched and create_idle: the idle thread is current, suspended and in no queue. */
    constructor (idleThread: Tid)
      requires idleThread != NULL
      ensures Valid() && fresh(ready)
      ensures View() == Idle(idleThread)
    {
      ready := new ReadyStruct();
      state, prio := map[idleThread := Suspended], map[idleThread := 0];
      current, idle, nesting := idleThread, idleThread, 0;
      new;
      ready.Register(idleThread);
      IdleOk(idleThread);
    }

    lemma QueuedIfReady(t: Tid)
      requires Valid() && t in state
      ensures Listed(ready.queues, t) <==> state[t].Ready?
    {
      OkQueued(View(), t);
    }

    /** create_pthread_struct */
    method CreateThread(t: Tid)
      requires Valid() && t != NULL && t !in state
      modifies this, ready
      ensures Valid() && View() == Register(old(View()), t)
    {
      hide Family, CellsMatch, QueueOk, RemoveFrom, Top;
      RegisterOk(View(), t);
      ready.Register(t);
      state, prio := state[t := Suspended], prio[t := 0];
    }

    /** change_thread_prio */
    method ChangeThreadPrio(t: Tid, newPrio: nat)
      requires Valid() && t in state && newPrio < PRIORITIES
      modifies this, ready
      ensures Valid() && View() == ChangePrio(old(View()), t, newPrio)
    {
      hide Family, CellsMatch, QueueOk, RemoveFrom, Top;
      ChangePrioOk(View(), t, newPrio);
      var prevState := state[t];
      ready.Remove(t);
      prio := prio[t := newPrio];
      if prevState == Ready {
        ready.Insert(t, prio[t]);
      }
    }

    /** The end of pthread_create_sys */
    method StartThread(t: Tid, newPrio: nat)
      requires Valid() && t in state && newPrio < PRIORITIES
      modifies this, ready
      ensures Valid() && state.Keys == old(state).Keys
      ensures View() == Start(old(View()), t, newPrio)
    {
      hide Family, CellsMatch, QueueOk, RemoveFrom, Top, Ok;
      assert |View().queues| == PRIORITIES by { TopIsReady(View()); }
      ChangeThreadPrio(t, newPrio);
      ActivateThread(t);
      Scheduling();
    }

    /** suspend_thread */
    method SuspendThread(t: Tid)
      requires Valid() && t in state
      modifies this, ready
      ensures Valid() && View() == Suspend(old(View()), t)
    {
      hide Family, CellsMatch, QueueOk, RemoveFrom, Top;
      SuspendOk(View(), t);
      ready.Remove(t);
      if state[t] != Finished {
        state := state[t := Suspended];
      }
    }

    /** activate_thread */
    method ActivateThread(t: Tid)
      requires Valid() && t in state
      modifies this, ready
      ensures Valid() && View() == Activate(old(View()), t)
    {
      hide Family, CellsMatch, QueueOk, RemoveFrom, Top;
      ActivateOk(View(), t);
      QueuedIfReady(t);
      if state[t] != Finished && state[t] != Ready {
        ready.Insert(t, prio[t]);
        state := state[t := Ready];
      }
    }

    /** finish_thread */
    method FinishThread(t: Tid)
      requires Valid() && t in state
      modifies this, ready
      ensures Valid() && View() == Finish(old(View()), t)
      ensures state == old(state)[t := Finished] && InNoQueue(View(), t)
    {
      hide Family, CellsMatch, QueueOk, RemoveFrom, Top;
      SuspendOk(View(), t);
      FinishEffect(View(), t);
      ready.Remove(t);
      state := state[t := Finished];
    }

    /** scheduling */
    method Scheduling()
      requires Valid()
      modifies this
      ensures Valid() && View() == Schedule(old(View()))
    {
      hide Family, CellsMatch, QueueOk, RemoveFrom, Top;
      ScheduleOk(View());
      TopIsReady(View());
      if nesting % SCHED_PENDING != 0 {
        nesting := if nesting >= SCHED_PENDING then nesting else nesting + SCHED_PENDING;
        return;
      }
      var newThread, _ := ready.GetHead();
      if newThread == NULL {
        newThread := idle;
      }
      if newThread != current {
        current := newThread;
      }
      nesting := 0;
    }

    /** pthread_yield_sys, called by a ready thread (YieldOk says what happens otherwise). */
    method PthreadYield()
      requires Valid() && state[current].Ready?
      modifies this, ready
      ensures Valid() && View() == Yield(old(View()))
    {
      hide Family, CellsMatch, QueueOk, RemoveFrom, Top;
      YieldOk(View());
      TailOk(View());
      ready.Remove(current);
      ready.InsertAtTail(current, prio[current]);
      Scheduling();
    }

    /** do_irq; `handler` is what the installed handler does, nested interrupts included. */
    method DoIrqFrame(handler: seq<Act>)
      requires Valid() && nesting % SCHED_PENDING + 1 + Nests(handler) < SCHED_PENDING
      modifies this, ready
      ensures Valid() && View() == DoIrq(old(View()), handler)
      decreases handler, 1
    {
      hide Family, CellsMatch, QueueOk, RemoveFrom, Top;
      hide Ok, Schedule, RunActs, Nests;
      EnterFrame(View());
      nesting := nesting + 1;
      RunHandler(handler);
      LeaveFrame(View());
      nesting := nesting - 1;
      if nesting == SCHED_PENDING {
        Scheduling();
      }
    }

    method RunHandler(handler: seq<Act>)
      requires Valid() && nesting % SCHED_PENDING >= 1 && nesting % SCHED_PENDING + Nests(handler) < SCHED_PENDING
      modifies this, ready
      ensures Valid() && View() == RunActs(old(View()), handler)
      ensures nesting % SCHED_PENDING == old(nesting) % SCHED_PENDING
      decreases handler, 0
    {
      hide Family, CellsMatch, QueueOk, RemoveFrom, Top;
      if handler != [] {
        ActKept(View(), handler[0]);
        match handler[0] {
          case Wake(t) => if t in state { ActivateThread(t); }
          case Stop(t) => if t in state { SuspendThread(t); }
          case Reschedule => Scheduling();
          case Irq(h) => DoIrqFrame(h);
        }
        RunHandler(handler[1..]);
      }
    }
  }

  lemma OkQueued(s: Sched, t: Tid)
    requires Ok(s) && s.Known(t)
    ensures Listed(s.queues, t) <==> s.IsReady(t)
  {
    forall p | 0 <= p < PRIORITIES
      ensures t in s.queues[p] <==> s.IsReady(t) && s.prio[t] == p
    {
      assert QueueOk(s, p);
    }
    if s.IsReady(t) {
      assert t in s.queues[s.prio[t]];
    }
  }

  lemma TailOk(s: Sched)
    requires Ok(s) && s.IsReady(s.current)
    ensures Ok(s.(queues := InsertTail(RemoveFrom(s.queues, s.current), s.prio[s.current], s.current)))
  {
    var t := s.current;
    var s1 := s.(queues := InsertTail(RemoveFrom(s.queues, t), s.prio[t], t));
    forall p | 0 <= p < PRIORITIES
      ensures QueueOk(s1, p)
    {
      assert QueueOk(s, p);
      RemovedOk(s, t, p);
    }
  }
}
