/**
 The scheduler's ready structure (include/ertl_core/sched_struct.h): 32 x 32 intrusive
 queues under a two-level bitmap. It behaves like one queue per priority that is
 searched from priority 0 upwards.

 `thread_matrix[i][j]` is stored row by row, so that cell 32 * i + j belongs to the
 priority of the same number.
 */
module ReadyQueues {
  import opened Bits
  import opened Links
  import opened Bitmaps

  const PRIORITIES := 1024

  type Tid = Addr
  type Queues = seq<seq<Tid>>

  // ----- the plain view: one queue per priority

  /** s without t. */
  function Delete(s: seq<Tid>, t: Tid): seq<Tid> {
    if s == [] then []
    else if s[0] == t then Delete(s[1..], t)
    else [s[0]] + Delete(s[1..], t)
  }

  function RemoveFrom(q: Queues, t: Tid): Queues {
    seq(|q|, p requires 0 <= p < |q| => Delete(q[p], t))
  }

  function InsertHead(q: Queues, p: nat, t: Tid): Queues
    requires p < |q|
  {
    q[p := [t] + q[p]]
  }

  function InsertTail(q: Queues, p: nat, t: Tid): Queues
    requires p < |q|
  {
    q[p := q[p] + [t]]
  }

  /** The lowest-numbered non-empty queue at or after p; |q| if there is none. */
  function TopFrom(q: Queues, p: nat): nat
    requires p <= |q|
    decreases |q| - p
  {
    if p < |q| && q[p] == [] then TopFrom(q, p + 1) else p
  }

  function Top(q: Queues): nat {
    TopFrom(q, 0)
  }

  lemma {:induction false} TopFromIs(q: Queues, p: nat, r: nat)
    requires p <= r <= |q| && (forall d :: p <= d < r ==> q[d] == []) && (r < |q| ==> q[r] != [])
    ensures TopFrom(q, p) == r
    decreases r - p
  {
    if p < r {
      TopFromIs(q, p + 1, r);
    }
  }

  lemma {:induction false} TopFromSkips(q: Queues, p: nat)
    requires p <= |q|
    ensures p <= TopFrom(q, p) <= |q|
    ensures forall d :: p <= d < TopFrom(q, p) ==> q[d] == []
    ensures TopFrom(q, p) < |q| ==> q[TopFrom(q, p)] != []
    decreases |q| - p
  {
    if p < |q| && q[p] == [] {
      TopFromSkips(q, p + 1);
    }
  }

  lemma {:induction false} DeleteMembers(s: seq<Tid>, t: Tid)
    ensures forall x :: x in Delete(s, t) <==> x in s && x != t
    ensures t !in s ==> Delete(s, t) == s
  {
    if s != [] {
      DeleteMembers(s[1..], t);
      assert s == [s[0]] + s[1..];
    }
  }

  lemma {:induction false} DeleteAt(s: seq<Tid>, k: nat)
    requires k < |s| && Distinct(s)
    ensures Delete(s, s[k]) == Without(s, k)
  {
    if k == 0 {
      assert s[0] !in s[1..];
      DeleteMembers(s[1..], s[0]);
    } else {
      DeleteAt(s[1..], k - 1);
      assert s[1..][k - 1] == s[k];
      assert Without(s, k) == [s[0]] + Without(s[1..], k - 1);
    }
  }

  // Removing an element of one queue of a family, or of none.
  lemma RemoveListed(q: Queues, c: nat, k: nat)
    requires c < |q| && k < |q[c]| && Distinct(q[c])
    requires forall d :: 0 <= d < |q| && d != c ==> q[c][k] !in q[d]
    ensures RemoveFrom(q, q[c][k]) == q[c := Without(q[c], k)]
  {
    DeleteAt(q[c], k);
    forall d | 0 <= d < |q| && d != c
      ensures Delete(q[d], q[c][k]) == q[d]
    {
      DeleteMembers(q[d], q[c][k]);
    }
  }

  lemma RemoveUnlisted(q: Queues, t: Tid)
    requires !Listed(q, t)
    ensures RemoveFrom(q, t) == q
  {
    forall d | 0 <= d < |q|
      ensures Delete(q[d], t) == q[d]
    {
      DeleteMembers(q[d], t);
    }
  }

  // ----- priorities and cells

  /** prio2ij */
  function PrioToCell(prio: nat): (int, int) {
    (prio % PRIORITIES / 32, prio % 32)
  }

  /** ij2prio */
  function CellToPrio(i: int, j: int): int {
    i % 32 * 32 + j % 32
  }

  lemma CellRoundTrip(prio: nat)
    requires prio < PRIORITIES
    ensures var (i, j) := PrioToCell(prio); 0 <= i < 32 && 0 <= j < 32 && 32 * i + j == prio && CellToPrio(i, j) == prio
  {
  }

  /** ss_i and ss_j name a queued thread's queue; another thread is unlinked, and marked so or still zeroed. */
  ghost predicate CellOk(link: Memory, cell: map<Tid, (int, int)>, q: Queues, t: Tid)
    requires t in cell && t in link
  {
    if Listed(q, t) then
      var (i, j) := cell[t];
      0 <= i < 32 && 0 <= j < 32 && 32 * i + j < |q| && t in q[32 * i + j]
    else
      link[t] == NO_LINK && (cell[t] == (-1, -1) || cell[t] == (0, 0))
  }

  ghost predicate CellsMatch(link: Memory, cell: map<Tid, (int, int)>, q: Queues) {
    && link.Keys == cell.Keys && NULL !in cell
    && (forall t :: t in cell ==> CellOk(link, cell, q, t))
    && (forall t :: Listed(q, t) ==> t in cell)
  }

  lemma ListedAfter(q: Queues, c: nat, s: seq<Tid>, t: Tid, x: Tid)
    requires c < |q| && forall x :: x != t ==> (x in s <==> x in q[c])
    requires forall d :: 0 <= d < |q| && d != c ==> t !in q[d]
    ensures Listed(q[c := s], x) <==> if x == t then t in s else Listed(q, x)
  {
    var q' := q[c := s];
    if x in s {
      assert x in q'[c];
    }
    if Listed(q, x) {
      var d :| 0 <= d < |q| && x in q[d];
      assert d != c ==> x in q'[d];
    }
    if Listed(q', x) {
      var d :| 0 <= d < |q'| && x in q'[d];
      assert d != c ==> x in q[d];
    }
  }

  // One queue has been rewritten by adding or taking out t.
  lemma CellsAfter(link: Memory, cell: map<Tid, (int, int)>, q: Queues, c: nat, s: seq<Tid>, t: Tid,
                   ij: (int, int), link': Memory)
    requires CellsMatch(link, cell, q) && c < |q| == PRIORITIES && t in cell
    requires link'.Keys == link.Keys && forall x :: x in link && x != t && x !in q[c] ==> link'[x] == link[x]
    requires forall x :: x != t ==> (x in s <==> x in q[c])
    requires forall d :: 0 <= d < |q| && d != c ==> t !in q[d]
    requires if t in s then ij == (c / 32, c % 32) else ij == (-1, -1) && link'[t] == NO_LINK
    ensures CellsMatch(link', cell[t := ij], q[c := s])
  {
    var q' := q[c := s];
    forall x
      ensures Listed(q', x) <==> if x == t then t in s else Listed(q, x)
    {
      ListedAfter(q, c, s, t, x);
    }
    forall x | x in cell
      ensures CellOk(link', cell[t := ij], q', x)
    {
      CellAfter(link, cell, q, c, s, t, ij, link', x);
    }
  }

  lemma CellAfter(link: Memory, cell: map<Tid, (int, int)>, q: Queues, c: nat, s: seq<Tid>, t: Tid,
                  ij: (int, int), link': Memory, x: Tid)
    requires CellsMatch(link, cell, q) && c < |q| == PRIORITIES && t in cell && x in cell
    requires link'.Keys == link.Keys && forall x :: x in link && x != t && x !in q[c] ==> link'[x] == link[x]
    requires x != t ==> (x in s <==> x in q[c])
    requires Listed(q[c := s], x) <==> if x == t then t in s else Listed(q, x)
    requires if t in s then ij == (c / 32, c % 32) else ij == (-1, -1) && link'[t] == NO_LINK
    ensures CellOk(link', cell[t := ij], q[c := s], x)
  {
    assert CellOk(link, cell, q, x);
    assert x in q[c] ==> Listed(q, x);
    if x == t {
      assert t in s ==> 32 * ij.0 + ij.1 == c;
    }
  }

  lemma CellsRegister(link: Memory, cell: map<Tid, (int, int)>, q: Queues, t: Tid)
    requires CellsMatch(link, cell, q) && t != NULL && t !in cell
    ensures CellsMatch(link[t := NO_LINK], cell[t := (0, 0)], q)
  {
  }

  // Linking t in front of a queue: the pointers insert_ss writes, and what they lead to.
  lemma FrontInserted(link: Memory, heads: seq<Tid>, cell: map<Tid, (int, int)>, q: Queues, prio: nat, t: Tid)
    requires Family(link, heads, q) && CellsMatch(link, cell, q) && prio < |q| == PRIORITIES
    requires t in cell && !Listed(q, t)
    ensures |heads| == |q| && t in link && link[t] == NO_LINK && (heads[prio] != NULL ==> heads[prio] in link)
    ensures var link' := PushFrontLinks(link, heads[prio], t);
            && Family(link', heads[prio := t], q[prio := [t] + q[prio]])
            && CellsMatch(link', cell[t := PrioToCell(prio)], q[prio := [t] + q[prio]])
            && var m1 := link[t := link[t].(next := heads[prio])];
               && heads[prio] != t
               && link' == if heads[prio] == NULL then m1 else m1[heads[prio] := m1[heads[prio]].(prev := t)]
  {
    hide CellOk, PushFrontLinks;
    assert t in link && link[t] == NO_LINK by { ClearWhenIdle(link, cell, q, t); }
    HeadInMemory(link, heads, q, prio);
    HeadIsListed(link, heads, q, prio);
    PushFrontFamily(link, heads, q, prio, t);
    PushFrontIs(link, heads[prio], t);
    ListedNowhere(q, t);
    hide Family, CellsMatch, Listed;
    CellsAfter(link, cell, q, prio, [t] + q[prio], t, PrioToCell(prio), PushFrontLinks(link, heads[prio], t));
  }

  // Linking t behind the last thread of a queue, as insert_ss_tail does.
  lemma BackInserted(link: Memory, heads: seq<Tid>, cell: map<Tid, (int, int)>, q: Queues, prio: nat, t: Tid)
    requires Family(link, heads, q) && CellsMatch(link, cell, q) && prio < |q| == PRIORITIES && q[prio] != []
    requires t in cell && !Listed(q, t)
    ensures var tail := q[prio][|q[prio]| - 1];
            && t in link && tail in link && tail != t
            && var m1 := link[tail := link[tail].(next := t)];
               var link' := m1[t := m1[t].(prev := tail)];
               && Family(link', heads, q[prio := q[prio] + [t]])
               && CellsMatch(link', cell[t := PrioToCell(prio)], q[prio := q[prio] + [t]])
  {
    hide CellOk, PushBackLinks;
    var tail := q[prio][|q[prio]| - 1];
    assert t in link && link[t] == NO_LINK by { ClearWhenIdle(link, cell, q, t); }
    PushBackFamily(link, heads, q, prio, t);
    assert tail in q[prio];
    PushBackIs(link, tail, t);
    ListedNowhere(q, t);
    hide Family, CellsMatch, Listed;
    CellsAfter(link, cell, q, prio, q[prio] + [t], t, PrioToCell(prio), PushBackLinks(link, tail, t));
  }

  lemma ListedNowhere(q: Queues, t: Tid)
    requires !Listed(q, t)
    ensures forall d :: 0 <= d < |q| ==> t !in q[d]
  {
  }

  lemma ClearWhenIdle(link: Memory, cell: map<Tid, (int, int)>, q: Queues, t: Tid)
    requires CellsMatch(link, cell, q) && t in cell && !Listed(q, t)
    ensures t in link && t != NULL && link[t] == NO_LINK
  {
    assert CellOk(link, cell, q, t);
  }

  class ReadyStruct {
    var matrix: seq<Tid>
    var flBitmap: Word
    var slBitmap: seq<Word>
    var link: Memory  // next_matrix and prev_matrix of every thread
    var cell: map<Tid, (int, int)>  // ss_i and ss_j of every thread
    ghost var queues: Queues

    ghost predicate Valid()
      reads this
    {
      && Family(link, matrix, queues)
      && |queues| == PRIORITIES
      && RowsMatch(queues, 0, 32, flBitmap, slBitmap)
      && CellsMatch(link, cell, queues)
    }

    /** init_ss */
    constructor ()
      ensures Valid() && queues == seq(PRIORITIES, _ => []) && cell == map[]
    {
      matrix := seq(PRIORITIES, _ => NULL);
      flBitmap, slBitmap := 0, seq(32, _ => 0);
      link, cell := map[], map[];
      queues := seq(PRIORITIES, _ => []);
      ZeroIsEmpty(0);
      EmptyRows(seq(PRIORITIES, _ => []), 0, 32, seq(32, _ => 0));
    }

    /** A new thread structure: all zero. */
    method Register(t: Tid)
      requires Valid() && t != NULL && t !in cell
      modifies this
      ensures Valid() && queues == old(queues) && cell.Keys == old(cell.Keys) + {t}
    {
      hide RowsMatch, CellsMatch;
      assert !Listed(queues, t) by { UnknownUnlisted(t); }
      UnlistedLink(link, matrix, queues, t, NO_LINK);
      CellsRegister(link, cell, queues, t);
      link := link[t := NO_LINK];
      cell := cell[t := (0, 0)];
    }

    lemma UnknownUnlisted(t: Tid)
      requires Valid() && t !in cell
      ensures !Listed(queues, t)
    {
    }

    /** insert_ss */
    method Insert(t: Tid, prio: nat)
      requires Valid() && t in cell && !Listed(queues, t) && prio < PRIORITIES
      modifies this
      ensures Valid() && queues == InsertHead(old(queues), prio, t) && cell.Keys == old(cell.Keys)
    {
      hide RowsMatch, CellsMatch, Family, Listed, PushFrontLinks;
      var (i, j) := PrioToCell(prio);
      Unlink(t);
      FrontInserted(link, matrix, cell, queues, prio, t);
      var head := matrix[prio];
      link := link[t := link[t].(next := head)];
      if head != NULL {
        link := link[head := link[head].(prev := t)];
      }
      matrix := matrix[prio := t];
      SetBits(i, j, [t] + queues[prio]);
      cell := cell[t := (i, j)];
    }

    /** Clears the link of a thread outside the queues, which is clear already. */
    method Unlink(t: Tid)
      requires Valid() && t in cell && !Listed(queues, t)
      modifies `link
      ensures link == old(link) && link[t] == NO_LINK
    {
      assert CellOk(link, cell, queues, t);
      link := link[t := NO_LINK];
    }

    /** The bits of a queue that has become non-empty. */
    method SetBits(i: BitNo, j: BitNo, ghost s: seq<Tid>)
      requires |queues| == PRIORITIES && RowsMatch(queues, 0, 32, flBitmap, slBitmap) && s != []
      modifies `flBitmap, `slBitmap, `queues
      ensures queues == old(queues)[32 * i + j := s] && RowsMatch(queues, 0, 32, flBitmap, slBitmap)
    {
      hide Members, SetBit;
      assert |slBitmap| == 32;
      hide RowsMatch;
      var row := SetBit(slBitmap[i], j);
      MembersOfSetBit(slBitmap[i], j);
      MembersOfSetBit(flBitmap, i);
      ZeroIsEmpty(row);
      RowsAfter(queues, 0, 32, flBitmap, slBitmap, i, j, s, row, SetBit(flBitmap, i));
      flBitmap := SetBit(flBitmap, i);
      slBitmap := slBitmap[i := row];
      queues := queues[32 * i + j := s];
    }

    /** insert_ss_tail */
    method InsertAtTail(t: Tid, prio: nat)
      requires Valid() && t in cell && !Listed(queues, t) && prio < PRIORITIES
      modifies this
      ensures Valid() && queues == InsertTail(old(queues), prio, t) && cell.Keys == old(cell.Keys)
    {
      hide RowsMatch, CellsMatch, Family, Listed, PushFrontLinks, PushBackLinks;
      var (i, j) := PrioToCell(prio);
      ghost var s := queues[prio] + [t];
      Unlink(t);
      HeadTellsNull(prio);
      if matrix[prio] != NULL {
        var tail := WalkToTail(prio);
        BackInserted(link, matrix, cell, queues, prio, t);
        link := link[tail := link[tail].(next := t)];
        link := link[t := link[t].(prev := tail)];
      } else {
        FrontInserted(link, matrix, cell, queues, prio, t);
        assert [t] + queues[prio] == s;
        assert link[t := link[t].(next := NULL)] == link;
        matrix := matrix[prio := t];
      }
      SetBits(i, j, s);
      cell := cell[t := (i, j)];
    }

    lemma HeadTellsNull(prio: nat)
      requires Valid() && prio < PRIORITIES
      ensures |matrix| == PRIORITIES && (matrix[prio] == NULL <==> queues[prio] == [])
    {
      hide CellsMatch, RowsMatch;
      HeadTellsEmpty(link, matrix, queues, prio);
    }

    /** remove_ss: takes t out of its queue; a thread in no queue, even one still zeroed, changes no queue. */
    method Remove(t: Tid)
      requires Valid() && t in cell
      modifies this
      ensures Valid() && queues == RemoveFrom(old(queues), t) && cell.Keys == old(cell.Keys)
      ensures !Listed(queues, t)
    {
      hide RowsMatch, CellOk, CellsMatch, Family, UnlinkLinks, RemoveFrom;
      Known(t);
      var (i, j) := cell[t];
      CellRange(t);
      if i == -1 || j == -1 {
        return;
      }
      ghost var c := 32 * i + j;
      ghost var s := Removal(t);
      var next := link[t].next;
      Bridge(t);
      if matrix[32 * i + j] == t {
        matrix := matrix[32 * i + j := next];
      }
      assert matrix == old(matrix)[c := matrix[c]];
      HeadTellsEmpty(link, matrix, queues[c := s], c);
      ClearBits(i, j, s);
      CellsAfter(old(link), cell, old(queues), c, s, t, (-1, -1), link);
      cell := cell[t := (-1, -1)];
    }

    lemma Known(t: Tid)
      requires Valid() && t in cell
      ensures t in link && |matrix| == |queues|
    {
    }

    // The cell of t in range, and what removal does to a thread that is in no queue.
    lemma CellRange(t: Tid)
      requires Valid() && t in cell
      ensures var (i, j) := cell[t]; (0 <= i < 32 && 0 <= j < 32) || (i == j == -1 && !Listed(queues, t))
      ensures !Listed(queues, t) ==> RemoveFrom(queues, t) == queues
    {
      assert CellOk(link, cell, queues, t);
      if !Listed(queues, t) {
        RemoveUnlisted(queues, t);
      }
    }

    // The queue of t's cell after removal, with the pointers and head that belong to it.
    ghost predicate Removes(t: Tid, c: nat, s: seq<Tid>)
      requires t in link && |matrix| == |queues| && c < |queues|
      reads this
    {
      && RemoveFrom(queues, t) == queues[c := s]
      && Family(UnlinkLinks(link, t), matrix[c := if matrix[c] == t then link[t].next else matrix[c]], queues[c := s])
      && UnlinkLinks(link, t).Keys == link.Keys && UnlinkLinks(link, t)[t] == NO_LINK
      && (forall x :: x in link && x != t && x !in queues[c] ==> UnlinkLinks(link, t)[x] == link[x])
      && (forall x :: x in s <==> x in queues[c] && x != t)
      && (forall d :: 0 <= d < |queues| && d != c ==> t !in queues[d])
      && (s != [] ==> queues[c] != [])
    }

    lemma Removal(t: Tid) returns (s: seq<Tid>)
      requires Valid() && t in cell && 0 <= cell[t].0 < 32 && 0 <= cell[t].1 < 32
      ensures (link[t].next != NULL ==> link[t].next in link) && (link[t].prev != NULL ==> link[t].prev in link)
      ensures Removes(t, 32 * cell[t].0 + cell[t].1, s)
    {
      hide Removes, RowsMatch, UnlinkLinks;
      var c := 32 * cell[t].0 + cell[t].1;
      assert CellOk(link, cell, queues, t);
      hide Family;
      if Listed(queues, t) {
        var k :| 0 <= k < |queues[c]| && queues[c][k] == t;
        s := Without(queues[c], k);
        RemovalQueued(t, c, k);
      } else {
        s := queues[c];
        RemovalIdle(t, c);
      }
    }

    lemma RemovalQueued(t: Tid, c: nat, k: nat)
      requires Valid() && t in cell && c < |queues| && k < |queues[c]| && queues[c][k] == t
      ensures (link[t].next != NULL ==> link[t].next in link) && (link[t].prev != NULL ==> link[t].prev in link)
      ensures Removes(t, c, Without(queues[c], k))
    {
      hide UnlinkLinks, RowsMatch, CellsMatch;
      UnlinkFamily(link, matrix, queues, c, k);
      assert IsList(link, matrix[c], queues[c]);
      NeighboursInMemory(link, queues[c], k);
      DeleteAt(queues[c], k);
      DeleteMembers(queues[c], t);
      assert t in queues[c];
      assert forall d :: 0 <= d < |queues| && d != c ==> t !in queues[d];
      RemoveListed(queues, c, k);
    }

    lemma RemovalIdle(t: Tid, c: nat)
      requires Valid() && t in cell && c < |queues| && link[t] == NO_LINK && !Listed(queues, t)
      ensures Removes(t, c, queues[c])
    {
      hide UnlinkLinks, RowsMatch;
      UnlinkIdle(link, t);
      HeadIsListed(link, matrix, queues, c);
      RemoveUnlisted(queues, t);
      assert queues[c := queues[c]] == queues && matrix[c := matrix[c]] == matrix;
      assert t !in queues[c] && t != NULL;
    }

    /** The neighbours of t bridged and its own link cleared. */
    method Bridge(t: Tid)
      requires t in link
      requires (link[t].next != NULL ==> link[t].next in link) && (link[t].prev != NULL ==> link[t].prev in link)
      modifies `link
      ensures link == UnlinkLinks(old(link), t)
    {
      var Link(prev, next) := link[t];
      if prev != NULL {
        link := link[prev := link[prev].(next := next)];
      }
      if next != NULL {
        link := link[next := link[next].(prev := prev)];
      }
      link := link[t := NO_LINK];
    }

    /** The bits of a queue that has lost a thread, or was empty already. */
    method ClearBits(i: BitNo, j: BitNo, ghost s: seq<Tid>)
      requires |queues| == PRIORITIES == |matrix| && RowsMatch(queues, 0, 32, flBitmap, slBitmap)
      requires matrix[32 * i + j] == NULL <==> s == []
      requires s != [] ==> queues[32 * i + j] != []
      modifies `flBitmap, `slBitmap, `queues
      ensures queues == old(queues)[32 * i + j := s] && RowsMatch(queues, 0, 32, flBitmap, slBitmap)
    {
      hide Members, ClearBit, Occupied;
      RowTells(queues, 0, 32, flBitmap, slBitmap, i, j);
      assert |slBitmap| == 32;
      hide RowsMatch;
      MembersOfClearBit(slBitmap[i], j);
      MembersOfClearBit(flBitmap, i);
      if matrix[32 * i + j] == NULL {
        slBitmap := slBitmap[i := ClearBit(slBitmap[i], j)];
        if slBitmap[i] == 0 {
          flBitmap := ClearBit(flBitmap, i);
        }
      }
      RowIsZero(old(slBitmap)[i], slBitmap[i], j);
      RowsAfter(queues, 0, 32, old(flBitmap), old(slBitmap), i, j, s, slBitmap[i], flBitmap);
      assert old(slBitmap)[i := slBitmap[i]] == slBitmap;
      queues := queues[32 * i + j := s];
    }

    /** get_head_ss: the first thread of the lowest-numbered non-empty queue. */
    method GetHead() returns (t: Tid, prio: int)
      requires Valid()
      ensures Top(queues) < |queues| ==>
                queues[Top(queues)] != [] && t == queues[Top(queues)][0] != NULL && prio == Top(queues)
      ensures Top(queues) == |queues| ==> t == NULL && prio == -1
    {
      hide Members, RowsMatch, CellsMatch, Top, Family;
      ZeroIsEmpty(flBitmap);
      if flBitmap == 0 {
        NoTop();
        return NULL, -1;
      }
      var i := Ffs(flBitmap);
      RowsAre(i);
      ZeroIsEmpty(slBitmap[i]);
      var j := Ffs(slBitmap[i]);
      TopCell(i, j);
      prio := CellToPrio(i, j);
      t := matrix[32 * i + j];
    }

    lemma NoTop()
      requires Valid() && Members(flBitmap) == {}
      ensures Top(queues) == |queues|
    {
      hide Members, RowsMatch, CellsMatch, Family;
      SkippedRows(queues, 0, 32, flBitmap, slBitmap, 0, 32);
      TopFromIs(queues, 0, |queues|);
    }

    // The lowest bit of the lowest non-empty row is the top queue.
    lemma TopCell(i: BitNo, j: BitNo)
      requires Valid() && i in Members(flBitmap) && |slBitmap| == 32 && j in Members(slBitmap[i])
      requires (forall f :: f in Members(flBitmap) ==> i <= f) && forall k :: k in Members(slBitmap[i]) ==> j <= k
      ensures Top(queues) == 32 * i + j
      ensures |matrix| == |queues| == PRIORITIES
      ensures queues[32 * i + j] != [] && matrix[32 * i + j] == queues[32 * i + j][0] != NULL
    {
      hide Members, CellsMatch;
      SkippedRows(queues, 0, 32, flBitmap, slBitmap, 0, i);
      SkippedLists(queues, 0, 32, flBitmap, slBitmap, i, 0, j);
      RowTells(queues, 0, 32, flBitmap, slBitmap, i, j);
      HeadIsFirst(link, matrix, queues, 32 * i + j);
      TopFromIs(queues, 0, 32 * i + j);
    }

    lemma RowsAre(i: BitNo)
      requires Valid() && i in Members(flBitmap)
      ensures |slBitmap| == 32 && slBitmap[i] != 0
    {
    }

    /** The walk along next_matrix to the last thread of a queue. */
    method WalkToTail(prio: nat) returns (aux: Tid)
      requires Valid() && prio < PRIORITIES && queues[prio] != []
      ensures aux == queues[prio][|queues[prio]| - 1] && aux in link
    {
      ghost var s, k := queues[prio], 0;
      aux := matrix[prio];
      assert Linked(link, s, 0);
      while link[aux].next != NULL
        invariant 0 <= k < |s| && aux == s[k] && Linked(link, s, k)
        decreases |s| - k
      {
        assert k + 1 < |s| ==> Linked(link, s, k + 1);
        aux := link[aux].next;
        k := k + 1;
      }
      assert k + 1 < |s| ==> Linked(link, s, k + 1);
    }
  }

  lemma HeadIsListed(m: Memory, heads: seq<Addr>, lists: seq<seq<Addr>>, c: nat)
    requires Family(m, heads, lists) && c < |lists|
    ensures heads[c] != NULL ==> heads[c] in lists[c]
  {
  }

  lemma PushFrontIs(m: Memory, head: Tid, t: Tid)
    requires t in m && m[t] == NO_LINK && (head != NULL ==> head in m) && head != t
    ensures var m1 := m[t := m[t].(next := head)];
            PushFrontLinks(m, head, t) == if head != NULL then m1[head := m1[head].(prev := t)] else m1
  {
  }

  lemma PushBackIs(m: Memory, tail: Tid, t: Tid)
    requires t in m && m[t] == NO_LINK && tail in m && tail != t
    ensures var m1 := m[tail := m[tail].(next := t)];
            PushBackLinks(m, tail, t) == m1[t := m1[t].(prev := tail)]
  {
  }

  lemma RowIsZero(row: Word, row': Word, j: BitNo)
    requires row' == row || Members(row') == Members(row) - {j}
    ensures row' != 0 ==> row != 0
  {
    ZeroIsEmpty(row);
    ZeroIsEmpty(row');
  }

  // A thread whose link is clear has no neighbours to bridge.
  lemma UnlinkIdle(m: Memory, t: Tid)
    requires t in m && m[t] == NO_LINK
    ensures UnlinkLinks(m, t) == m
  {
  }
}
