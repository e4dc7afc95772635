/**
 Interrupts as they happen in time (server/core/common/irqs-l4.c and sched.c): entries,
 exits and what handlers do, in one sequence. The frames in progress are counted from
 the sequence itself and compared with irq_nesting_counter.
 */
module Interrupts {
  import opened Arithmetic
  import opened Links
  import opened ReadyQueues
  import opened Scheduler

  datatype Event = Enter | Leave | Does(act: Act)

  /** The frames entered and not left yet. */
  function Frames(es: seq<Event>): int {
    if es == [] then 0
    else
      var before := Frames(es[..|es| - 1]);
      match es[|es| - 1]
      case Enter => before + 1
      case Leave => before - 1
      case Does(_) => before
  }

  /** A request for rescheduling has been made inside an interrupt, and the outermost frame has not been left since. */
  function Asked(es: seq<Event>): bool {
    if es == [] then false
    else
      var before := Asked(es[..|es| - 1]);
      match es[|es| - 1]
      case Enter => before
      case Leave => before && Frames(es) > 0
      case Does(a) => before || (a.Reschedule? && Frames(es) > 0)
  }

  /** No frame is left that was not entered, their number fits, and nested interrupts appear as events of their own. */
  ghost predicate WellNested(es: seq<Event>) {
    && (forall i :: 0 <= i <= |es| ==> 0 <= Frames(es[..i]) < SCHED_PENDING)
    && (forall i :: 0 <= i < |es| && es[i].Does? ==> !es[i].act.Irq?)
  }

  /** The first lines of do_irq, its last lines, and the actions of handlers. */
  function Happen(s: Sched, e: Event): Sched {
    match e
    case Enter => s.(nesting := (s.nesting + 1) % WORD)
    case Leave =>
      var s2 := s.(nesting := (s.nesting + WORD - 1) % WORD);
      if s2.nesting == SCHED_PENDING then Schedule(s2) else s2
    case Does(a) => RunAct(s, a)
  }

  function After(s: Sched, es: seq<Event>): Sched {
    if es == [] then s else Happen(After(s, es[..|es| - 1]), es[|es| - 1])
  }

  // ----- the counter

  /** A scheduler's state with so many frames in progress, and a request pending or not. */
  ghost predicate Counts(s: Sched, frames: int, asked: bool) {
    Ok(s) && s.Depth() == frames && (s.Pending() <==> asked) && (frames == 0 ==> !asked)
  }

  lemma EnterCounts(s: Sched, frames: int, asked: bool)
    requires Counts(s, frames, asked) && frames + 1 < SCHED_PENDING
    ensures Counts(Happen(s, Enter), frames + 1, asked)
  {
    EnterFrame(s);
    hide Ok;
  }

  lemma LeaveCounts(s: Sched, frames: int, asked: bool)
    requires Counts(s, frames, asked) && frames >= 1
    ensures Counts(Happen(s, Leave), frames - 1, asked && frames > 1)
    ensures frames > 1 ==> Happen(s, Leave).current == s.current
    ensures frames == 1 && asked ==> RunsMostUrgent(Happen(s, Leave))
    ensures frames == 1 && !asked ==> Happen(s, Leave).current == s.current
  {
    LeaveFrame(s);
    ScheduleOk(s.(nesting := s.nesting - 1));
  }

  lemma ActCounts(s: Sched, frames: int, asked: bool, a: Act)
    requires Counts(s, frames, asked) && !a.Irq?
    ensures Counts(RunAct(s, a), frames, asked || (a.Reschedule? && frames > 0))
    ensures frames > 0 || !a.Reschedule? ==> RunAct(s, a).current == s.current
    ensures frames == 0 && a.Reschedule? ==> RunsMostUrgent(RunAct(s, a))
  {
    match a
    case Wake(t) => if s.Known(t) { ActivateOk(s, t); }
    case Stop(t) => if s.Known(t) { SuspendOk(s, t); }
    case Reschedule => ScheduleOk(s);
  }

  /**
   At every moment of every well-nested sequence of events from outside interrupts, the low 31 bits of the counter are
   the number of frames in progress, and bit 31 says whether a request is waiting for the outermost one to end.
   */
  lemma {:induction false} FramesCounted(s: Sched, es: seq<Event>)
    requires Ok(s) && s.nesting == 0 && WellNested(es)
    ensures Counts(After(s, es), Frames(es), Asked(es))
    decreases es
  {
    if es != [] {
      var p, e := es[..|es| - 1], es[|es| - 1];
      assert p + [e] == es;
      PrefixNested(p, e);
      FramesCounted(s, p);
      hide Counts, Happen;
      match e
      case Enter => EnterCounts(After(s, p), Frames(p), Asked(p));
      case Leave => LeaveCounts(After(s, p), Frames(p), Asked(p));
      case Does(a) => ActCounts(After(s, p), Frames(p), Asked(p), a); HappenDoes(After(s, p), a);
    }
  }

  lemma HappenDoes(s: Sched, a: Act)
    ensures Happen(s, Does(a)) == RunAct(s, a)
  {
  }

  lemma PrefixNested(p: seq<Event>, e: Event)
    requires WellNested(p + [e])
    ensures WellNested(p) && 0 <= Frames(p) < SCHED_PENDING && 0 <= Frames(p + [e]) < SCHED_PENDING
    ensures e.Does? ==> !e.act.Irq?
    ensures Frames(p + [e]) == Frames(p) + match e case Enter => 1 case Leave => -1 case Does(_) => 0
  {
    var es := p + [e];
    assert es[..|p|] == p && p[..|p|] == p && es[..|es|] == es && es[|p|] == e;
    forall i | 0 <= i <= |p|
      ensures p[..i] == es[..i]
    {
    }
    forall i | 0 <= i < |p|
      ensures p[i] == es[i]
    {
    }
  }

  /** Nothing is switched while a frame is in progress; leaving the outermost one serves the requests made in it. */
  lemma SwitchedOutside(s: Sched, es: seq<Event>, e: Event)
    requires Ok(s) && s.nesting == 0 && WellNested(es + [e])
    ensures var s1, s2, now := After(s, es), After(s, es + [e]), Frames(es + [e]);
            && (now > 0 ==> s2.current == s1.current)
            && (now == 0 && e == Leave ==> if Asked(es) then RunsMostUrgent(s2) else s2.current == s1.current)
            && (now == 0 && e == Does(Reschedule) ==> RunsMostUrgent(s2))
  {
    PrefixNested(es, e);
    FramesCounted(s, es);
    var s1, n, asked := After(s, es), Frames(es), Asked(es);
    assert (es + [e])[..|es + [e]| - 1] == es;
    hide Counts, RunsMostUrgent, Asked, RunAct, WellNested;
    match e
    case Enter =>
    case Leave => LeaveCounts(s1, n, asked);
    case Does(a) => ActCounts(s1, n, asked, a);
  }

  // ----- nested calls of do_irq are such sequences

  function Flat(acts: seq<Act>): seq<Event> {
    if acts == [] then [] else FlatAct(acts[0]) + Flat(acts[1..])
  }

  function FlatAct(a: Act): seq<Event> {
    match a
    case Irq(h) => [Enter] + Flat(h) + [Leave]
    case _ => [Does(a)]
  }

  lemma {:induction false} AfterBoth(s: Sched, a: seq<Event>, b: seq<Event>)
    ensures After(s, a + b) == After(After(s, a), b)
    decreases |b|
  {
    if b == [] {
      assert a + b == a;
    } else {
      AfterBoth(s, a, b[..|b| - 1]);
      assert (a + b)[..|a + b| - 1] == a + b[..|b| - 1];
    }
  }

  /** do_irq with all that its handler does, nested interrupts included, is the sequence of its events. */
  lemma {:induction false} DoIrqIsItsEvents(s: Sched, handler: seq<Act>)
    ensures DoIrq(s, handler) == After(s, FlatAct(Irq(handler)))
    decreases handler, 1
  {
    var s0 := Happen(s, Enter);
    ActsAreTheirEvents(s0, handler);
    AfterOne(s, Enter);
    AfterBoth(s, [Enter], Flat(handler));
    AfterBoth(s, [Enter] + Flat(handler), [Leave]);
    AfterOne(RunActs(s0, handler), Leave);
  }

  lemma AfterOne(s: Sched, e: Event)
    ensures After(s, [e]) == Happen(s, e)
  {
    assert [e][..0] == [];
  }

  lemma {:induction false} ActsAreTheirEvents(s: Sched, acts: seq<Act>)
    ensures RunActs(s, acts) == After(s, Flat(acts))
    decreases acts, 0
  {
    if acts != [] {
      var a := acts[0];
      if a.Irq? {
        DoIrqIsItsEvents(s, a.handler);
      } else {
        AfterOne(s, Does(a));
      }
      AfterBoth(s, FlatAct(a), Flat(acts[1..]));
      ActsAreTheirEvents(RunAct(s, a), acts[1..]);
    }
  }
}
