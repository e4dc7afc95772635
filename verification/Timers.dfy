/**
 Kernel timers (server/core/port/time.c): the timer array, the heap of armed timers,
 and the expiry loop. Times are unsigned 64-bit nanosecond counts; the clocks are
 read once per call, as `now`.
 */
module Timers {
  import opened Arithmetic
  import opened TimerHeap

  const HALF := 0x8000_0000  // 2^31
  const LONG := 0x1_0000_0000_0000_0000  // 2^64

  datatype Option<T> = None | Some(value: T)

  datatype KTimer = KTimer(owner: nat, value: nat, interval: nat, inUse: bool, armed: bool, abstime: bool)

  const CLEARED := KTimer(0, 0, 0, false, false, false)

  function Deadlines(ts: seq<KTimer>): Keys {
    seq(|ts|, i requires 0 <= i < |ts| => ts[i].value)
  }

  ghost function Armed(ts: seq<KTimer>): set<nat> {
    set i: nat | i < |ts| && ts[i].armed
  }

  // ----- the expiry test

  /** An unsigned 32-bit word read as a signed one. */
  function ToInt(x: nat): int
    requires x < WORD
  {
    if x < HALF then x else x - WORD
  }

  /** The difference of two unsigned 32-bit words. */
  function Minus(a: nat, b: nat): nat
    requires a < WORD && b < WORD
  {
    (a - b) % WORD
  }

  /** The loop's test: the two halves are compared as signed differences. */
  predicate Due(value: nat, now: nat)
    requires value < LONG && now < LONG
  {
    var hi := ToInt(Minus(value / WORD, now / WORD));
    var low := ToInt(Minus(value % WORD, now % WORD));
    hi > 0 || (hi == 0 && low <= 0)
  }

  /** High words equal and low words within half a range, or high words at least half a range apart. */
  predicate InWindow(value: nat, now: nat) {
    var hi, low := value / WORD - now / WORD, value % WORD - now % WORD;
    (hi == 0 && -HALF <= low < HALF) || hi >= HALF || hi < -HALF
  }

  /** The test means `value <= now` exactly inside the window. */
  lemma DueAgrees(value: nat, now: nat)
    requires value < LONG && now < LONG
    ensures (Due(value, now) <==> value <= now) <==> InWindow(value, now)
  {
    var h, l := value / WORD - now / WORD, value % WORD - now % WORD;
    assert Minus(value / WORD, now / WORD) == if h >= 0 then h else h + WORD;
    assert Minus(value % WORD, now % WORD) == if l >= 0 then l else l + WORD;
  }

  // ----- what one call of update_hwtimer does

  /** A timer that has fired: periodic timers of unfinished owners are re-armed, others disarmed. */
  function Rearmed(t: KTimer, now: nat, finished: set<nat>): KTimer {
    if t.interval > 0 && t.owner !in finished then t.(value := (t.interval + now) % LONG) else t.(armed := false)
  }

  /** A timer after n rounds of the expiry loop that fire it, with the clock standing at now. */
  function FiredAgain(t: KTimer, now: nat, finished: set<nat>, n: nat): KTimer {
    if n == 0 then t else Rearmed(FiredAgain(t, now, finished, n - 1), now, finished)
  }

  /**
   A periodic timer of 2^32 to about 2^63 ns whose owner has not finished is still armed and due after every round that
   fires it: as long as it is the earliest one the loop goes on.
   */
  lemma LongPeriodStaysDue(t: KTimer, now: nat, finished: set<nat>, n: nat)
    requires WORD <= t.interval < HALF * WORD - WORD && now + t.interval < LONG && t.owner !in finished && n > 0
    ensures var t' := FiredAgain(t, now, finished, n);
            t'.armed == t.armed && now < t'.value < LONG && Due(t'.value, now)
  {
    hide Due, FiredAgain;
    SameFields(t, now, finished, n);
    LaterButDue(now, t.interval);
  }

  lemma LaterButDue(now: nat, interval: nat)
    requires WORD <= interval < HALF * WORD - WORD && now + interval < LONG
    ensures Due(now + interval, now)
  {
    var h := (now + interval) / WORD - now / WORD;
    assert 1 <= h < HALF;
    assert Minus((now + interval) / WORD, now / WORD) == h;
  }

  lemma {:induction false} SameFields(t: KTimer, now: nat, finished: set<nat>, n: nat)
    requires t.interval > 0 && t.owner !in finished
    ensures FiredAgain(t, now, finished, n) == t.(value := FiredAgain(t, now, finished, n).value)
    ensures n > 0 ==> FiredAgain(t, now, finished, n).value == (t.interval + now) % LONG
  {
    if n > 0 {
      SameFields(t, now, finished, n - 1);
    }
  }

  /** Every deadline, also of the timers that will be re-armed, is where the test can tell. */
  ghost predicate Tellable(ts: seq<KTimer>, now: nat, finished: set<nat>) {
    forall i: nat :: i in Armed(ts) ==>
      && InWindow(ts[i].value, now)
      && (ts[i].value <= now && ts[i].interval > 0 && ts[i].owner !in finished ==>
            ts[i].interval + now < LONG && InWindow(ts[i].interval + now, now))
  }

  ghost predicate Expired(ts: seq<KTimer>, now: nat, i: nat) {
    i in Armed(ts) && ts[i].value <= now
  }

  /** fired lists expired timers of ts, each once and by increasing deadline; no other expired timer is earlier. */
  ghost predicate InOrder(ts: seq<KTimer>, now: nat, fired: seq<nat>) {
    && (forall a :: 0 <= a < |fired| ==> Expired(ts, now, fired[a]))
    && (forall a, b :: 0 <= a < b < |fired| ==> fired[a] != fired[b] && ts[fired[a]].value <= ts[fired[b]].value)
    && (forall a: nat, i: nat :: a < |fired| && Expired(ts, now, i) && i !in fired ==>
         ts[fired[a]].value <= ts[i].value)
  }

  /** ts' is ts after exactly those timers have fired. */
  ghost predicate After(ts: seq<KTimer>, now: nat, finished: set<nat>, fired: seq<nat>, ts': seq<KTimer>) {
    && |ts'| == |ts|
    && forall i :: 0 <= i < |ts| ==> ts'[i] == if i in fired then Rearmed(ts[i], now, finished) else ts[i]
  }

  // ----- the timers and their heap

  ghost predicate TimerOk(t: KTimer) {
    t.value < LONG && (t.armed ==> t.inUse)
  }

  /** Armed timers are in the heap exactly once, other timers not at all. */
  ghost predicate HeapMatches(ts: seq<KTimer>, c: seq<nat>, n: nat) {
    n < |c| && Bag(c, n) == multiset(Armed(ts))
  }

  lemma OccursOnceIffArmed(ts: seq<KTimer>, c: seq<nat>, n: nat, i: nat)
    requires HeapMatches(ts, c, n) && i < |ts|
    ensures Bag(c, n)[i] == if ts[i].armed then 1 else 0
  {
  }

  lemma {:induction false} AtMost(ts: seq<KTimer>)
    ensures |Armed(ts)| <= |ts|
  {
    if ts == [] {
      assert Armed(ts) == {};
    } else {
      var n := |ts| - 1;
      AtMost(ts[..n]);
      assert Armed(ts) == Armed(ts[..n]) + if ts[n].armed then {n} else {};
    }
  }

  /** By pigeonhole the heap never holds more elements than there are timers, and leaves room for an unarmed one. */
  lemma HeapHasRoom(ts: seq<KTimer>, c: seq<nat>, n: nat)
    requires HeapMatches(ts, c, n)
    ensures n == |Armed(ts)| <= |ts|
    ensures (exists i :: 0 <= i < |ts| && !ts[i].armed) ==> n < |ts|
  {
    AtMost(ts);
    assert |c[1..n + 1]| == n;
    assert |multiset(Armed(ts))| == |Armed(ts)|;
    if i: nat :| i < |ts| && !ts[i].armed {
      var all := ts[i := ts[i].(armed := true)];
      AtMost(all);
      assert Armed(all) == Armed(ts) + {i};
    }
  }

  // The order of the heap depends only on the deadlines of its elements.
  lemma SameKeys(c: seq<nat>, n: nat, key: Keys, key': Keys)
    requires InKeys(c, n, key) && |key'| == |key|
    requires forall j :: 1 <= j <= n ==> key'[c[j]] == key[c[j]]
    ensures InKeys(c, n, key') && (Ordered(c, n, key') <==> Ordered(c, n, key))
  {
    forall j | 2 <= j <= n
      ensures Edge(c, key', j) <==> Edge(c, key, j)
    {
    }
    if Ordered(c, n, key) {
      assert Ordered(c, n, key');
    }
    if Ordered(c, n, key') {
      assert Ordered(c, n, key);
    }
  }

  // One timer that is not in the heap changes.
  lemma OutsideChange(ts: seq<KTimer>, i: nat, t: KTimer, c: seq<nat>, n: nat)
    requires i < |ts| && InKeys(c, n, Deadlines(ts)) && i !in Bag(c, n)
    ensures var ts' := ts[i := t];
            InKeys(c, n, Deadlines(ts')) && (Ordered(c, n, Deadlines(ts')) <==> Ordered(c, n, Deadlines(ts)))
  {
    var key, key' := Deadlines(ts), Deadlines(ts[i := t]);
    forall j | 1 <= j <= n
      ensures key'[c[j]] == key[c[j]]
    {
      BagMember(c, n, j);
    }
    SameKeys(c, n, key, key');
  }

  // An armed timer leaves the heap and is disarmed.
  lemma Taken(ts: seq<KTimer>, k: nat, t: KTimer, c: seq<nat>, n: nat, c': seq<nat>, n': nat)
    requires HeapMatches(ts, c, n) && k < |ts| && ts[k].armed && !t.armed
    requires n' < |c'| && Bag(c', n') == Bag(c, n) - multiset{k}
    ensures HeapMatches(ts[k := t], c', n') && k !in Bag(c', n')
  {
  }

  // An unarmed timer is armed and enters the heap.
  lemma Placed(ts: seq<KTimer>, k: nat, t: KTimer, c: seq<nat>, n: nat, c': seq<nat>, n': nat)
    requires HeapMatches(ts, c, n) && k < |ts| && !ts[k].armed && t.armed
    requires n' < |c'| && Bag(c', n') == Bag(c, n) + multiset{k}
    ensures HeapMatches(ts[k := t], c', n') && k !in Bag(c, n)
  {
  }

  /** Taking element k out by moving the last element into its cell leaves every father no later than its children. */
  ghost predicate KeepsOrderWithout(c: seq<nat>, n: nat, key: Keys, k: nat)
    requires InKeys(c, n, key)
  {
    forall i :: 1 <= i <= n && c[i] == k ==> LastFits(c, n, key, i)
  }

  /**
   Heap order can be lost: when the timer in cell 4 is removed, the last element, of deadline 3, moves below the one of
   deadline 10 and stays there.
   */
  lemma RemovalCanBreakOrder()
    ensures var c, key := [0, 0, 1, 2, 3, 4, 5], [1, 10, 2, 11, 12, 3];
            && InKeys(c, 6, key) && Ordered(c, 6, key) && c[4] == 3 && !KeepsOrderWithout(c, 6, key, 3)
            && var c' := WithoutCell(c, 6, key, 4);
               c' == [0, 0, 1, 2, 5, 4, 5] && InKeys(c', 5, key) && !Ordered(c', 5, key)
  {
    var c, key: Keys := [0, 0, 1, 2, 3, 4, 5], [1, 10, 2, 11, 12, 3];
    assert InKeys(c, 6, key);
    assert c[4] == 3 && key[c[4 / 2]] > key[c[6]];
    var c' := c[4 := c[6]];
    assert c' == [0, 0, 1, 2, 5, 4, 5];
    SiftDownHere(c', 5, key, 4);
    assert !Edge(c', key, 4);
  }

  lemma TwoCells(c: seq<nat>, n: nat, i: nat, j: nat)
    requires 1 <= i < j <= n < |c| && c[i] == c[j]
    ensures Bag(c, n)[c[i]] >= 2
  {
    var s := c[1..n + 1];
    assert s == s[..i] + s[i..];
    assert s[i - 1] == s[..i][i - 1] && s[j - 1] == s[i..][j - 1 - i];
    assert c[i] in multiset(s[..i]) && c[i] in multiset(s[i..]);
  }

  // An armed timer has one cell only.
  lemma OneCell(ts: seq<KTimer>, c: seq<nat>, n: nat, i: nat)
    requires HeapMatches(ts, c, n) && 1 <= i <= n
    ensures forall j :: 1 <= j <= n && c[j] == c[i] ==> j == i
  {
    forall j | 1 <= j <= n && c[j] == c[i]
      ensures j == i
    {
      if i < j {
        TwoCells(c, n, i, j);
      } else if j < i {
        TwoCells(c, n, j, i);
      }
    }
  }

  // ----- firing timers one after another

  /** The timers of `fired` have fired, in order, since ts0. */
  ghost predicate Firing(ts0: seq<KTimer>, now: nat, finished: set<nat>, fired: seq<nat>, ts: seq<KTimer>) {
    InOrder(ts0, now, fired) && After(ts0, now, finished, fired, ts)
  }

  ghost predicate Least(ts: seq<KTimer>, k: nat) {
    k in Armed(ts) && forall j: nat :: j in Armed(ts) ==> ts[k].value <= ts[j].value
  }

  // A timer that is still armed is due by the test exactly if it has expired and not fired yet.
  lemma DueWhileFiring(ts0: seq<KTimer>, now: nat, finished: set<nat>, fired: seq<nat>, ts: seq<KTimer>, k: nat)
    requires Firing(ts0, now, finished, fired, ts) && Tellable(ts0, now, finished) && now < LONG
    requires k in Armed(ts) && ts[k].value < LONG
    ensures Due(ts[k].value, now) <==> ts[k].value <= now
    ensures Due(ts[k].value, now) <==> k !in fired && Expired(ts0, now, k)
    ensures ts[k].value <= now ==> ts[k] == ts0[k]
  {
    hide Due;
    DueAgrees(ts[k].value, now);
    StillTellable(ts0, now, finished, fired, ts, k);
  }

  // An armed timer has not fired and is as it was, or it is periodic and has been re-armed for later.
  lemma StillTellable(ts0: seq<KTimer>, now: nat, finished: set<nat>, fired: seq<nat>, ts: seq<KTimer>, k: nat)
    requires Firing(ts0, now, finished, fired, ts) && Tellable(ts0, now, finished) && k in Armed(ts)
    ensures InWindow(ts[k].value, now) && k in Armed(ts0)
    ensures if k in fired then ts[k].value > now else ts[k] == ts0[k]
  {
    hide InWindow;
    if k in fired {
      assert Expired(ts0, now, k);
    }
  }

  lemma FireStep(ts0: seq<KTimer>, now: nat, finished: set<nat>, fired: seq<nat>, ts: seq<KTimer>, k: nat)
    requires Firing(ts0, now, finished, fired, ts) && Tellable(ts0, now, finished) && now < LONG
    requires Least(ts, k) && ts[k].value < LONG && Due(ts[k].value, now)
    ensures Firing(ts0, now, finished, fired + [k], ts[k := Rearmed(ts[k], now, finished)])
    ensures k !in fired && Expired(ts0, now, k)
  {
    DueWhileFiring(ts0, now, finished, fired, ts, k);
    var fired' := fired + [k];
    forall i: nat | Expired(ts0, now, i) && i !in fired'
      ensures ts0[k].value <= ts0[i].value
    {
      assert ts[i] == ts0[i] && i in Armed(ts);
    }
  }

  // An expired timer that has not fired is as it was.
  lemma NotYetFired(ts0: seq<KTimer>, now: nat, finished: set<nat>, fired: seq<nat>, ts: seq<KTimer>, i: nat)
    requires Firing(ts0, now, finished, fired, ts) && Expired(ts0, now, i)
    ensures i in fired || (i in Armed(ts) && ts[i].value <= now)
  {
  }

  lemma FireEnd(ts0: seq<KTimer>, now: nat, finished: set<nat>, fired: seq<nat>, ts: seq<KTimer>, k: nat)
    requires Firing(ts0, now, finished, fired, ts) && Tellable(ts0, now, finished) && now < LONG
    requires Least(ts, k) && ts[k].value < LONG && !Due(ts[k].value, now)
    ensures forall i: nat :: Expired(ts0, now, i) ==> i in fired
    ensures now <= ts[k].value
  {
    DueWhileFiring(ts0, now, finished, fired, ts, k);
    forall i: nat | Expired(ts0, now, i)
      ensures i in fired
    {
      NotYetFired(ts0, now, finished, fired, ts, i);
    }
  }

  // What has become of the timers that fired.
  lemma FiredRearmed(ts0: seq<KTimer>, now: nat, finished: set<nat>, fired: seq<nat>, ts: seq<KTimer>)
    requires Firing(ts0, now, finished, fired, ts) && Tellable(ts0, now, finished)
    ensures forall i :: 0 <= i < |ts| && i in fired ==>
              ts[i] == if ts0[i].interval == 0 || ts0[i].owner in finished then ts0[i].(armed := false)
                       else ts0[i].(value := now + ts0[i].interval)
  {
    hide InWindow;
    forall i: nat | i < |ts| && i in fired
      ensures ts[i] == if ts0[i].interval == 0 || ts0[i].owner in finished then ts0[i].(armed := false)
                       else ts0[i].(value := now + ts0[i].interval)
    {
      assert Expired(ts0, now, i);
    }
  }

  /** A timer armed at `start` for `value` nanoseconds later is not fired before they have passed. */
  lemma NeverEarly(ts: seq<KTimer>, later: nat, fired: seq<nat>, i: nat, start: nat, value: nat)
    requires InOrder(ts, later, fired) && i in fired && i < |ts| && ts[i].value - start == value
    ensures later - start >= value
  {
    var a :| 0 <= a < |fired| && fired[a] == i;
    assert Expired(ts, later, fired[a]);
  }

  lemma FireEndEmpty(ts0: seq<KTimer>, now: nat, finished: set<nat>, fired: seq<nat>, ts: seq<KTimer>)
    requires Firing(ts0, now, finished, fired, ts) && Armed(ts) == {}
    ensures forall i: nat :: Expired(ts0, now, i) ==> i in fired
  {
    forall i: nat | Expired(ts0, now, i)
      ensures i in fired
    {
      NotYetFired(ts0, now, finished, fired, ts, i);
    }
  }

  /** The timers still to fire: what the expiry loop counts down. */
  ghost function Left(ts0: seq<KTimer>, now: nat, fired: seq<nat>): nat {
    |set i | i in Armed(ts0) && Expired(ts0, now, i) && i !in fired|
  }

  lemma LeftDrops(ts0: seq<KTimer>, now: nat, fired: seq<nat>, k: nat)
    requires k !in fired && Expired(ts0, now, k)
    ensures Left(ts0, now, fired + [k]) < Left(ts0, now, fired)
  {
    var a := set i | i in Armed(ts0) && Expired(ts0, now, i) && i !in fired;
    assert (set i | i in Armed(ts0) && Expired(ts0, now, i) && i !in fired + [k]) == a - {k};
  }

  lemma FirstIsArmed(ts: seq<KTimer>, c: seq<nat>, n: nat)
    requires HeapMatches(ts, c, n) && n > 0
    ensures c[1] < |ts| && ts[c[1]].armed
  {
    BagMember(c, n, 1);
  }

  // Nothing has fired at first.
  lemma FireStart(ts0: seq<KTimer>, now: nat, finished: set<nat>)
    ensures Firing(ts0, now, finished, [], ts0)
  {
  }

  lemma FiredExpired(ts0: seq<KTimer>, now: nat, finished: set<nat>, fired: seq<nat>, ts: seq<KTimer>)
    requires Firing(ts0, now, finished, fired, ts)
    ensures InOrder(ts0, now, fired) && After(ts0, now, finished, fired, ts)
    ensures forall i: nat :: i in fired ==> Expired(ts0, now, i)
  {
  }

  // HEAP_remove_element has answered r and, if 0, taken timer id from cell i.
  lemma TakenOut(ts: seq<KTimer>, id: nat, t: KTimer, c: seq<nat>, n: nat, c': seq<nat>, n': nat, r: int, i: nat)
    requires id < |ts| && !t.armed && HeapMatches(ts, c, n) && InKeys(c, n, Deadlines(ts))
    requires InKeys(c', n', Deadlines(ts))
    requires r == 0 <==> id in Bag(c, n)
    requires r != 0 ==> n' == n && c' == c
    requires r == 0 ==> 1 <= i <= n && c[i] == id && Bag(c', n') == Bag(c, n) - multiset{id}
    requires r == 0 && Ordered(c, n, Deadlines(ts)) ==>
               (Ordered(c', n', Deadlines(ts)) <==> LastFits(c, n, Deadlines(ts), i))
    ensures HeapMatches(ts[id := t], c', n') && InKeys(c', n', Deadlines(ts[id := t]))
    ensures Ordered(c, n, Deadlines(ts)) ==>
              (Ordered(c', n', Deadlines(ts[id := t])) <==> KeepsOrderWithout(c, n, Deadlines(ts), id))
  {
    OccursOnceIffArmed(ts, c, n, id);
    if r == 0 {
      Taken(ts, id, t, c, n, c', n');
      OneCell(ts, c, n, i);
    } else {
      assert Armed(ts[id := t]) == Armed(ts);
      forall j | 1 <= j <= n
        ensures c[j] != id
      {
        BagMember(c, n, j);
      }
    }
    OutsideChange(ts, id, t, c', n');
  }

  lemma FiredNever(t: KTimer, now: nat, finished: set<nat>)
    ensures FiredAgain(t, now, finished, 0) == t
  {
  }

  lemma FiredOnce(t: KTimer, now: nat, finished: set<nat>, n: nat)
    requires n > 0
    ensures FiredAgain(t, now, finished, n) == Rearmed(FiredAgain(t, now, finished, n - 1), now, finished)
  {
  }

  ghost predicate OnlyArmed(ts: seq<KTimer>, k: nat) {
    k < |ts| && ts[k].armed && forall i :: 0 <= i < |ts| && i != k ==> !ts[i].armed
  }

  // The only armed timer is alone in the heap.
  lemma OnlyElement(ts: seq<KTimer>, c: seq<nat>, n: nat, k: nat)
    requires HeapMatches(ts, c, n) && OnlyArmed(ts, k)
    ensures n == 1 && c[1] == k
  {
    assert Armed(ts) == {k};
    assert |c[1..n + 1]| == n == |multiset(Armed(ts))|;
    BagMember(c, n, 1);
  }

  class TimerBase {
    var timers: seq<KTimer>  // timer_array
    const heap: Heap  // timer_heap

    ghost predicate Valid()
      reads this, heap, heap.cells
    {
      && |timers| == MAX_TIMERS
      && heap.Valid(Deadlines(timers))
      && HeapMatches(timers, heap.cells[..], heap.nelem)
      && forall i :: 0 <= i < |timers| ==> TimerOk(timers[i])
    }

    /** No father in the heap is later than its children. */
    ghost predicate InHeapOrder()
      requires Valid()
      reads this, heap, heap.cells
    {
      Ordered(heap.cells[..], heap.nelem, Deadlines(timers))
    }

    /** init_time */
    constructor ()
      ensures Valid() && InHeapOrder() && timers == seq(MAX_TIMERS, _ => CLEARED)
      ensures fresh(heap) && fresh(heap.cells)
    {
      heap := new Heap();
      timers := seq(MAX_TIMERS, _ => CLEARED);
      new;
      assert Armed(timers) == {};
    }

    /** alloc_ktimer: the first timer not in use, or -1. */
    method AllocKtimer(owner: nat) returns (id: int)
      requires Valid()
      modifies this
      ensures Valid() && old(InHeapOrder()) == InHeapOrder()
      ensures id == -1 ==> timers == old(timers) && forall i :: 0 <= i < |timers| ==> timers[i].inUse
      ensures id != -1 ==>
                && 0 <= id < MAX_TIMERS && !old(timers)[id].inUse
                && (forall i :: 0 <= i < id ==> old(timers)[i].inUse)
                && timers == old(timers)[id := CLEARED.(owner := owner, inUse := true)]
    {
      var i := 0;
      while i < MAX_TIMERS && timers[i].inUse
        invariant 0 <= i <= MAX_TIMERS
        invariant forall j :: 0 <= j < i ==> timers[j].inUse
      {
        i := i + 1;
      }
      if i >= MAX_TIMERS {
        return -1;
      }
      assert TimerOk(timers[i]);
      UnarmedChange(i, CLEARED.(owner := owner, inUse := true));
      timers := timers[i := CLEARED.(owner := owner, inUse := true)];
      return i;
    }

    // Changing an unarmed timer, without arming it, leaves heap and order alone.
    lemma UnarmedChange(i: nat, t: KTimer)
      requires Valid() && i < |timers| && !timers[i].armed && !t.armed
      ensures var ts := timers[i := t];
              && heap.Valid(Deadlines(ts)) && HeapMatches(ts, heap.cells[..], heap.nelem)
              && (InHeapOrder() <==> Ordered(heap.cells[..], heap.nelem, Deadlines(ts)))
    {
      OccursOnceIffArmed(timers, heap.cells[..], heap.nelem, i);
      OutsideChange(timers, i, t, heap.cells[..], heap.nelem);
      assert Armed(timers[i := t]) == Armed(timers);
    }

    /** HEAP_remove_element followed by clearing flags: the timer becomes t, unarmed. */
    method TakeOut(id: nat, t: KTimer)
      requires Valid() && id < MAX_TIMERS && TimerOk(t) && !t.armed
      modifies this, heap, heap.cells
      ensures Valid() && timers == old(timers)[id := t]
      ensures old(InHeapOrder()) ==>
                (InHeapOrder() <==> KeepsOrderWithout(old(heap.cells[..]), old(heap.nelem), Deadlines(old(timers)), id))
    {
      hide Bag, Ordered, HeapMatches, InKeys;
      ghost var ts, c, n := timers, heap.cells[..], heap.nelem;
      var r, i := heap.RemoveElement(id, Deadlines(timers));
      ghost var c', n' := heap.cells[..], heap.nelem;
      timers := timers[id := t];
      TakenOut(ts, id, t, c, n, c', n', r, i);
    }

    /** free_ktimer */
    method FreeKtimer(id: nat)
      requires Valid() && id < MAX_TIMERS
      modifies this, heap, heap.cells
      ensures Valid() && timers == old(timers)[id := old(timers)[id].(inUse := false, armed := false, abstime := false)]
      ensures old(InHeapOrder()) ==>
                (InHeapOrder() <==> KeepsOrderWithout(old(heap.cells[..]), old(heap.nelem), Deadlines(old(timers)), id))
    {
      assert TimerOk(timers[id]);
      TakeOut(id, timers[id].(inUse := false, armed := false, abstime := false));
    }

    /** disarm_timer */
    method DisarmTimer(id: nat)
      requires Valid() && id < MAX_TIMERS
      modifies this, heap, heap.cells
      ensures Valid() && timers == old(timers)[id := old(timers)[id].(armed := false)]
      ensures old(InHeapOrder()) ==>
                (InHeapOrder() <==> KeepsOrderWithout(old(heap.cells[..]), old(heap.nelem), Deadlines(old(timers)), id))
    {
      assert TimerOk(timers[id]);
      TakeOut(id, timers[id].(armed := false));
    }

    // Arming an unarmed timer: t is its new contents.
    method PutIn(id: nat, t: KTimer)
      requires Valid() && id < MAX_TIMERS && !timers[id].armed && TimerOk(t) && t.armed
      modifies this, heap, heap.cells
      ensures Valid() && timers == old(timers)[id := t]
      ensures old(InHeapOrder()) ==> InHeapOrder()
    {
      ghost var ts, c, n := timers, heap.cells[..], heap.nelem;
      HeapHasRoom(ts, c, n);
      OccursOnceIffArmed(ts, c, n, id);
      OutsideChange(ts, id, t, c, n);
      timers := timers[id := t];
      var r := heap.Insert(id, Deadlines(timers));
      Placed(ts, id, t, c, n, heap.cells[..], heap.nelem);
    }

    /** arm_timer, on a timer that is not armed; now is what the timer's clock reads. */
    method ArmTimer(id: nat, value: nat, interval: nat, now: nat) returns (r: int)
      requires Valid() && id < MAX_TIMERS && !timers[id].armed && value < LONG
      modifies this, heap, heap.cells
      ensures Valid() && (old(InHeapOrder()) ==> InHeapOrder())
      ensures r == if old(timers)[id].inUse then 0 else -1
      ensures r != 0 ==> timers == old(timers)
      ensures r == 0 ==>
                var t, t' := old(timers)[id], timers[id];
                && timers == old(timers)[id := t']
                && t' == t.(value := t'.value, interval := interval, armed := true)
                && (t.abstime ==> t'.value == value)
                && (!t.abstime && now + value < LONG ==> t'.value - now == value)
                && (!t.abstime ==> t'.value == (now + value) % LONG)
    {
      hide Ordered, HeapMatches;
      if !timers[id].inUse {
        return -1;
      }
      var deadline := value;
      if !timers[id].abstime {
        deadline := (deadline + now) % LONG;
      }
      PutIn(id, timers[id].(value := deadline, armed := true, interval := interval));
      return 0;
    }

    /** timer_delete_sys */
    method TimerDelete(id: nat) returns (r: int)
      requires Valid()
      modifies this, heap, heap.cells
      ensures Valid()
      ensures r == if id < MAX_TIMERS && old(timers)[id].inUse then 0 else -1
      ensures timers == if r == 0
                        then old(timers)[id := old(timers)[id].(inUse := false, armed := false, abstime := false)]
                        else old(timers)
      ensures r == 0 && old(InHeapOrder()) ==>
                (InHeapOrder() <==> KeepsOrderWithout(old(heap.cells[..]), old(heap.nelem), Deadlines(old(timers)), id))
    {
      if id >= MAX_TIMERS || !timers[id].inUse {
        return -1;
      }
      FreeKtimer(id);
      return 0;
    }

    /**
     timer_settime_sys up to its final update_hwtimer; request is None for a missing or zero it_value.
     ovalue is the deadline and the interval the timer was armed with.
     */
    method TimerSetTime(id: nat, abstime: bool, request: Option<(nat, nat)>, now: nat)
      returns (r: int, ovalue: Option<(nat, nat)>)
      requires Valid() && (request.Some? ==> request.value.0 < LONG)
      modifies this, heap, heap.cells
      ensures Valid()
      ensures r == if id < MAX_TIMERS && old(timers)[id].inUse then 0 else -1
      ensures r != 0 ==> timers == old(timers) && ovalue == None
      ensures r == 0 ==>
                var t := old(timers)[id];
                && ovalue == (if t.armed then Some((t.value, t.interval)) else None)
                && timers == old(timers)[id := timers[id]]
                && (request.None? ==> timers[id] == t.(armed := false, abstime := abstime))
      ensures r == 0 && request.Some? ==>
                var t, (value, interval) := timers[id], request.value;
                && t == old(timers)[id].(value := t.value, interval := interval, armed := true, abstime := abstime)
                && (abstime ==> t.value == value)
                && (!abstime && now + value < LONG ==> t.value - now == value)
                && (!abstime ==> t.value == (now + value) % LONG)
      ensures old(InHeapOrder()) && (r != 0 || !old(timers)[id].armed) ==> InHeapOrder()
      ensures old(InHeapOrder())
              && KeepsOrderWithout(old(heap.cells[..]), old(heap.nelem), Deadlines(old(timers)), id) ==>
                InHeapOrder()
    {
      hide Ordered, HeapMatches, KeepsOrderWithout;
      if id >= MAX_TIMERS || !timers[id].inUse {
        return -1, None;
      }
      ovalue := None;
      if timers[id].armed {
        ovalue := Some((timers[id].value, timers[id].interval));
        DisarmTimer(id);
      }
      UnarmedChange(id, timers[id].(abstime := abstime));
      assert TimerOk(timers[id]);
      timers := timers[id := timers[id].(abstime := abstime)];
      if request.Some? {
        var armed := ArmTimer(id, request.value.0, request.value.1, now);
      }
      return 0, ovalue;
    }

    // HEAP_remove_min and disarming: the timer of cell 1 becomes t.
    method TakeFirst(k: nat, t: KTimer)
      requires Valid() && InHeapOrder() && heap.nelem > 0 && k == heap.cells[1] && TimerOk(t) && !t.armed
      modifies this, heap, heap.cells
      ensures Valid() && InHeapOrder() && k < |timers| && timers == old(timers)[k := t]
    {
      hide Ordered, HeapMatches, Bag;
      ghost var ts, c, n := timers, heap.cells[..], heap.nelem;
      FirstIsArmed(ts, c, n);
      var m := heap.RemoveMin(Deadlines(timers));
      Taken(ts, k, t, c, n, heap.cells[..], heap.nelem);
      OutsideChange(ts, k, t, heap.cells[..], heap.nelem);
      timers := timers[k := t];
    }

    /** One round of the expiry loop: the earliest timer leaves the heap, and comes back if it is periodic. */
    method FireFirst(k: nat, now: nat, finished: set<nat>)
      requires Valid() && InHeapOrder() && heap.nelem > 0 && k == heap.cells[1] && k < |timers| && timers[k].armed
      modifies this, heap, heap.cells
      ensures Valid() && InHeapOrder() && timers == old(timers)[k := Rearmed(old(timers)[k], now, finished)]
    {
      hide Ordered, HeapMatches, InKeys;
      var t := timers[k];
      assert TimerOk(t);
      TakeFirst(k, t.(armed := false));
      if t.interval > 0 && t.owner !in finished {
        PutIn(k, t.(value := (t.interval + now) % LONG));
      }
    }

    /**
     Any number of rounds of the expiry loop with the clock standing at now, when the only armed timer has a period of
     2^32 to about 2^63 ns and its owner has not finished: the earliest timer is still due, so the loop does not end.
     */
    method FireRepeatedly(n: nat, k: nat, now: nat, finished: set<nat>)
      requires Valid() && InHeapOrder() && OnlyArmed(timers, k)
      requires now < LONG && Due(timers[k].value, now) && timers[k].owner !in finished
      requires WORD <= timers[k].interval < HALF * WORD - WORD && now + timers[k].interval < LONG
      modifies this, heap, heap.cells
      ensures Valid() && InHeapOrder() && heap.nelem == 1 && heap.cells[1] == k
      ensures k < |timers| && TimerOk(timers[k]) && Due(timers[k].value, now)
      ensures timers == old(timers)[k := FiredAgain(old(timers)[k], now, finished, n)]
    {
      hide Ordered, HeapMatches, InKeys, Due, FiredAgain;
      ghost var t := timers[k];
      OnlyElement(timers, heap.cells[..], heap.nelem, k);
      FiredNever(t, now, finished);
      var i := 0;
      while i < n
        invariant i <= n && Valid() && InHeapOrder() && heap.nelem == 1 && heap.cells[1] == k
        invariant timers == old(timers)[k := FiredAgain(t, now, finished, i)]
        invariant TimerOk(timers[k]) && Due(timers[k].value, now)
      {
        SameFields(t, now, finished, i);
        FireFirst(k, now, finished);
        i := i + 1;
        FiredOnce(t, now, finished, i);
        LongPeriodStaysDue(t, now, finished, i);
        SameFields(t, now, finished, i);
        OnlyElement(timers, heap.cells[..], heap.nelem, k);
      }
    }

    /** HEAP_min, as the expiry loop uses it. */
    method Earliest() returns (k: int)
      requires Valid() && InHeapOrder()
      ensures k == -1 ==> heap.nelem == 0 && Armed(timers) == {}
      ensures k != -1 ==> 0 <= k < |timers| && heap.nelem > 0 && k == heap.cells[1] && timers[k].armed
      ensures k != -1 ==> Least(timers, k) && timers[k].value < LONG
    {
      k := heap.Min(Deadlines(timers));
      if heap.nelem == 0 {
        HeapHasRoom(timers, heap.cells[..], heap.nelem);
        return;
      }
      assert TimerOk(timers[k]);
      forall j: nat | j in Armed(timers)
        ensures timers[k].value <= timers[j].value
      {
        assert j in Bag(heap.cells[..], heap.nelem);
        assert Deadlines(timers)[j] == timers[j].value;
      }
    }

    /**
     update_hwtimer, with all clocks standing at now: fires exactly the expired timers, once each and by
     increasing deadline, and sets the hardware timer for the next deadline. Both timer actions ask for
     rescheduling, so action is 1 as soon as a timer has fired.
     */
    method UpdateHwtimer(now: nat, finished: set<nat>, minInterval: nat, maxInterval: nat)
      returns (action: int, programmed: Option<nat>, ghost fired: seq<nat>)
      requires Valid() && InHeapOrder() && now < LONG && Tellable(timers, now, finished)
      modifies this, heap, heap.cells
      ensures Valid() && InHeapOrder()
      ensures InOrder(old(timers), now, fired) && forall i: nat :: Expired(old(timers), now, i) <==> i in fired
      ensures After(old(timers), now, finished, fired, timers)
      ensures action == if fired == [] then 0 else 1
      ensures forall i :: 0 <= i < |timers| && i in fired ==>
                var t := old(timers)[i];
                timers[i] == if t.interval == 0 || t.owner in finished then t.(armed := false)
                             else t.(value := now + t.interval)
      ensures programmed == None ==> Armed(timers) == {}
      ensures programmed.Some? ==>
                exists i: nat :: Least(timers, i) && now <= timers[i].value
                            && var distance, d := timers[i].value - now, programmed.value;
                               && (distance < minInterval ==> d == minInterval)
                               && (minInterval <= distance <= maxInterval ==> d == distance)
                               && (minInterval <= distance && maxInterval < distance ==> d == maxInterval)
      ensures programmed.Some? && minInterval <= maxInterval ==> minInterval <= programmed.value <= maxInterval
    {
      hide Ordered, HeapMatches, InKeys, Tellable, Expired, Firing, Least, Due, Armed;
      ghost var ts0 := timers;
      action, fired := 0, [];
      FireStart(ts0, now, finished);
      var k := Earliest();
      while k != -1 && Due(timers[k].value, now)
        invariant Valid() && InHeapOrder()
        invariant k == -1 ==> heap.nelem == 0 && Armed(timers) == {}
        invariant k != -1 ==> 0 <= k < |timers| && heap.nelem > 0 && k == heap.cells[1]
        invariant k != -1 ==> timers[k].armed && Least(timers, k) && timers[k].value < LONG
        invariant Firing(ts0, now, finished, fired, timers)
        invariant action == if fired == [] then 0 else 1
        decreases Left(ts0, now, fired)
      {
        action := 1;
        FireStep(ts0, now, finished, fired, timers, k);
        LeftDrops(ts0, now, fired, k);
        FireFirst(k, now, finished);
        fired := fired + [k];
        k := Earliest();
      }
      FiredExpired(ts0, now, finished, fired, timers);
      FiredRearmed(ts0, now, finished, fired, timers);
      if k == -1 {
        FireEndEmpty(ts0, now, finished, fired, timers);
        return action, None, fired;
      }
      FireEnd(ts0, now, finished, fired, timers, k);
      var next := (timers[k].value - now) % LONG;
      if next < minInterval {
        next := minInterval;
      } else if next > maxInterval {
        next := maxInterval;
      }
      return action, Some(next), fired;
    }
  }
}
