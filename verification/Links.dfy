/**
 Intrusive doubly linked lists in a flat memory.

 The allocator's free lists, the scheduler's ready queues and the waiter lists of
 mutexes and conditions are all chains of `prev`/`next` words inside the objects
 they link. Memory is a map from addresses to link pairs, address 0 is NULL, and
 a `Family` is an array of list heads together with the sequences it stands for.
 */
module Links {

  type Addr = nat
  const NULL: Addr := 0

  datatype Link = Link(prev: Addr, next: Addr)
  type Memory = map<Addr, Link>

  const NO_LINK := Link(NULL, NULL)

  /** The element at i, or NULL beyond either end. */
  function At(s: seq<Addr>, i: int): Addr {
    if 0 <= i < |s| then s[i] else NULL
  }

  ghost predicate Distinct(s: seq<Addr>) {
    forall i, j :: 0 <= i < j < |s| ==> s[i] != s[j]
  }

  /** The node s[i] points at its neighbours in s. */
  ghost predicate Linked(m: Memory, s: seq<Addr>, i: nat)
    requires i < |s|
  {
    s[i] != NULL && s[i] in m && m[s[i]] == Link(At(s, i - 1), At(s, i + 1))
  }

  /** The chain starting at `head` is s, linked in both directions. */
  ghost predicate IsList(m: Memory, head: Addr, s: seq<Addr>) {
    && head == At(s, 0)
    && Distinct(s)
    && forall i :: 0 <= i < |s| ==> Linked(m, s, i)
  }

  /** Every head starts its own list and no address is on two lists. */
  ghost predicate Family(m: Memory, heads: seq<Addr>, lists: seq<seq<Addr>>) {
    && |heads| == |lists|
    && (forall c :: 0 <= c < |lists| ==> IsList(m, heads[c], lists[c]))
    && (forall c, d, x :: 0 <= c < |lists| && 0 <= d < |lists| && x in lists[c] && x in lists[d] ==> c == d)
  }

  ghost predicate Listed(lists: seq<seq<Addr>>, x: Addr) {
    exists c :: 0 <= c < |lists| && x in lists[c]
  }

  /** s without its element at k. */
  function Without(s: seq<Addr>, k: nat): seq<Addr>
    requires k < |s|
  {
    s[..k] + s[k + 1..]
  }

  // ----- the pointer updates

  /** Writes p's own link and the old head's back pointer. */
  function PushFrontLinks(m: Memory, head: Addr, p: Addr): Memory {
    var m1 := m[p := Link(NULL, head)];
    if head in m && head != NULL then m1[head := m1[head].(prev := p)] else m1
  }

  /** Bridges p's neighbours and clears p's link. */
  function UnlinkLinks(m: Memory, p: Addr): Memory
    requires p in m
  {
    var Link(prev, next) := m[p];
    var m1 := if next != NULL && next in m then m[next := m[next].(prev := prev)] else m;
    var m2 := if prev != NULL && prev in m1 then m1[prev := m1[prev].(next := next)] else m1;
    m2[p := NO_LINK]
  }

  /** Appends p behind the tail t of a non-empty list. */
  function PushBackLinks(m: Memory, tail: Addr, p: Addr): Memory
    requires tail in m
  {
    m[p := Link(tail, NULL)][tail := m[tail].(next := p)]
  }

  /** Makes the node behind the first one the new front; the old front keeps its own link. */
  function PopFrontLinks(m: Memory, front: Addr): Memory
    requires front in m
  {
    var next := m[front].next;
    if next != NULL && next in m then m[next := m[next].(prev := NULL)] else m
  }

  // ----- what they do to one list

  lemma PushFrontList(m: Memory, head: Addr, s: seq<Addr>, p: Addr)
    requires IsList(m, head, s) && p != NULL && p !in s
    ensures IsList(PushFrontLinks(m, head, p), p, [p] + s)
    ensures var m' := PushFrontLinks(m, head, p);
            forall x :: x in m && x != p && x !in s ==> x in m' && m'[x] == m[x]
  {
    var t, m' := [p] + s, PushFrontLinks(m, head, p);
    if s != [] {
      assert Linked(m, s, 0);
    }
    forall i | 0 <= i < |t|
      ensures Linked(m', t, i)
    {
      if i != 0 {
        assert Linked(m, s, i - 1);
      }
    }
  }

  lemma PushBackList(m: Memory, head: Addr, s: seq<Addr>, p: Addr)
    requires IsList(m, head, s) && p != NULL && p !in s && s != []
    ensures Linked(m, s, |s| - 1)
    ensures IsList(PushBackLinks(m, s[|s| - 1], p), head, s + [p])
    ensures var m' := PushBackLinks(m, s[|s| - 1], p);
            forall x :: x in m && x != p && x !in s ==> x in m' && m'[x] == m[x]
  {
    var tail := s[|s| - 1];
    assert Linked(m, s, |s| - 1);
    var t, m' := s + [p], PushBackLinks(m, tail, p);
    forall i | 0 <= i < |t|
      ensures Linked(m', t, i)
    {
      if i < |s| {
        assert Linked(m, s, i);
      }
    }
  }

  lemma UnlinkList(m: Memory, head: Addr, s: seq<Addr>, k: nat)
    requires IsList(m, head, s) && k < |s|
    ensures Linked(m, s, k)
    ensures IsList(UnlinkLinks(m, s[k]), if head == s[k] then m[s[k]].next else head, Without(s, k))
    ensures UnlinkLinks(m, s[k])[s[k]] == NO_LINK
    ensures forall x :: x in m && x !in s ==> x in UnlinkLinks(m, s[k]) && UnlinkLinks(m, s[k])[x] == m[x]
  {
    assert Linked(m, s, k);
    var t, m' := Without(s, k), UnlinkLinks(m, s[k]);
    assert k > 0 ==> Linked(m, s, k - 1);
    assert k + 1 < |s| ==> Linked(m, s, k + 1);
    forall i | 0 <= i < |t|
      ensures Linked(m', t, i)
    {
      var j := if i < k then i else i + 1;
      assert Linked(m, s, j);
    }
  }

  // ----- what they do to a family

  lemma ReplaceList(m: Memory, m': Memory, heads: seq<Addr>, lists: seq<seq<Addr>>, c: nat, h: Addr, s: seq<Addr>)
    requires Family(m, heads, lists) && c < |lists|
    requires IsList(m', h, s)
    requires forall x :: x in s ==> x in lists[c] || !Listed(lists, x)
    requires forall x :: x in m && x !in lists[c] && Listed(lists, x) ==> x in m' && m'[x] == m[x]
    ensures Family(m', heads[c := h], lists[c := s])
  {
    forall d | 0 <= d < |lists| && d != c
      ensures IsList(m', heads[d], lists[d])
    {
      forall i | 0 <= i < |lists[d]|
        ensures Linked(m', lists[d], i)
      {
        assert Linked(m, lists[d], i);
        assert lists[d][i] in lists[d];
      }
    }
  }

  lemma PushFrontFamily(m: Memory, heads: seq<Addr>, lists: seq<seq<Addr>>, c: nat, p: Addr)
    requires Family(m, heads, lists) && c < |lists| && p != NULL && !Listed(lists, p)
    ensures Family(PushFrontLinks(m, heads[c], p), heads[c := p], lists[c := [p] + lists[c]])
    ensures var m' := PushFrontLinks(m, heads[c], p);
            m'.Keys == m.Keys + {p} && forall x :: x in m && x != p && x !in lists[c] ==> m'[x] == m[x]
  {
    PushFrontList(m, heads[c], lists[c], p);
    ReplaceList(m, PushFrontLinks(m, heads[c], p), heads, lists, c, p, [p] + lists[c]);
  }

  lemma PushBackFamily(m: Memory, heads: seq<Addr>, lists: seq<seq<Addr>>, c: nat, p: Addr)
    requires Family(m, heads, lists) && c < |lists| && p != NULL && !Listed(lists, p) && lists[c] != []
    ensures Linked(m, lists[c], |lists[c]| - 1)
    ensures Family(PushBackLinks(m, lists[c][|lists[c]| - 1], p), heads, lists[c := lists[c] + [p]])
    ensures var m' := PushBackLinks(m, lists[c][|lists[c]| - 1], p);
            m'.Keys == m.Keys + {p} && forall x :: x in m && x != p && x !in lists[c] ==> m'[x] == m[x]
  {
    var s := lists[c];
    PushBackList(m, heads[c], s, p);
    ReplaceList(m, PushBackLinks(m, s[|s| - 1], p), heads, lists, c, heads[c], s + [p]);
    assert heads[c := heads[c]] == heads;
  }

  lemma UnlinkFamily(m: Memory, heads: seq<Addr>, lists: seq<seq<Addr>>, c: nat, k: nat)
    requires Family(m, heads, lists) && c < |lists| && k < |lists[c]|
    ensures Linked(m, lists[c], k)
    ensures var p := lists[c][k];
            Family(UnlinkLinks(m, p), heads[c := if heads[c] == p then m[p].next else heads[c]],
                   lists[c := Without(lists[c], k)])
    ensures var m' := UnlinkLinks(m, lists[c][k]);
            && m'.Keys == m.Keys && m'[lists[c][k]] == NO_LINK
            && forall x :: x in m && x !in lists[c] ==> m'[x] == m[x]
  {
    var s := lists[c];
    var p := s[k];
    UnlinkList(m, heads[c], s, k);
    ReplaceList(m, UnlinkLinks(m, p), heads, lists, c, if heads[c] == p then m[p].next else heads[c], Without(s, k));
  }

  // The link of an address that is on no list does not matter.
  lemma UnlistedLink(m: Memory, heads: seq<Addr>, lists: seq<seq<Addr>>, p: Addr, l: Link)
    requires Family(m, heads, lists) && !Listed(lists, p)
    ensures Family(m[p := l], heads, lists)
  {
    if |lists| > 0 {
      var m', s := m[p := l], lists[0];
      forall i | 0 <= i < |s|
        ensures Linked(m', s, i)
      {
        assert Linked(m, s, i);
        assert s[i] in s;
      }
      ReplaceList(m, m', heads, lists, 0, heads[0], s);
      assert heads[0 := heads[0]] == heads && lists[0 := s] == lists;
    }
  }

  lemma PopFrontFamily(m: Memory, heads: seq<Addr>, lists: seq<seq<Addr>>, c: nat)
    requires Family(m, heads, lists) && c < |lists| && lists[c] != []
    ensures Linked(m, lists[c], 0)
    ensures var p := heads[c];
            p == lists[c][0] && Family(PopFrontLinks(m, p), heads[c := m[p].next], lists[c := lists[c][1..]])
  {
    var p := heads[c];
    UnlinkFamily(m, heads, lists, c, 0);
    assert Without(lists[c], 0) == lists[c][1..];
    var rest := lists[c := lists[c][1..]];
    assert !Listed(rest, p) by {
      forall d | 0 <= d < |rest|
        ensures p !in rest[d]
      {
        assert p in lists[c];
      }
    }
    UnlistedLink(UnlinkLinks(m, p), heads[c := m[p].next], rest, p, m[p]);
    assert PopFrontLinks(m, p) == UnlinkLinks(m, p)[p := m[p]];
  }

  // ----- reading a family

  lemma HeadIsFirst(m: Memory, heads: seq<Addr>, lists: seq<seq<Addr>>, c: nat)
    requires Family(m, heads, lists) && c < |lists| && lists[c] != []
    ensures heads[c] == lists[c][0] != NULL
  {
    assert Linked(m, lists[c], 0);
  }

  lemma HeadInMemory(m: Memory, heads: seq<Addr>, lists: seq<seq<Addr>>, c: nat)
    requires Family(m, heads, lists) && c < |lists|
    ensures heads[c] != NULL ==> heads[c] in m
  {
    assert lists[c] != [] ==> Linked(m, lists[c], 0);
  }

  lemma HeadTellsEmpty(m: Memory, heads: seq<Addr>, lists: seq<seq<Addr>>, c: nat)
    requires Family(m, heads, lists) && c < |lists|
    ensures heads[c] == NULL <==> lists[c] == []
  {
    assert lists[c] != [] ==> Linked(m, lists[c], 0);
  }

  // The pointers that an unlinking follows are inside the memory.
  lemma NeighboursInMemory(m: Memory, s: seq<Addr>, k: nat)
    requires k < |s| && forall i :: 0 <= i < |s| ==> Linked(m, s, i)
    ensures s[k] in m
    ensures m[s[k]].next != NULL ==> m[s[k]].next in m
    ensures m[s[k]].prev != NULL ==> m[s[k]].prev in m
  {
    assert Linked(m, s, k);
    assert k > 0 ==> Linked(m, s, k - 1);
    assert k + 1 < |s| ==> Linked(m, s, k + 1);
  }
}
