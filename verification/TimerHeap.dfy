/**
 The binary heap of pending timers (server/core/port/heap.c). Cell 0 is unused; the
 elements are numbers of timers, ordered by their deadlines.
 */
module TimerHeap {

  const MAX_TIMERS := 32
  const HEAP_MAX_NELEM := MAX_TIMERS + 1

  /** Deadlines by timer number; IS_MIN compares them. */
  type Keys = seq<nat>

  ghost predicate InKeys(c: seq<nat>, n: nat, key: Keys)
  {
    n < |c| && forall j :: 1 <= j <= n ==> c[j] < |key|
  }

  /** The edge from cell j to its father is in order. */
  ghost predicate Edge(c: seq<nat>, key: Keys, j: nat)
    requires 2 <= j < |c| && c[j] < |key| && c[j / 2] < |key|
  {
    key[c[j / 2]] <= key[c[j]]
  }

  /** No father is later than its children. */
  ghost predicate Ordered(c: seq<nat>, n: nat, key: Keys)
    requires InKeys(c, n, key)
  {
    forall j :: 2 <= j <= n ==> Edge(c, key, j)
  }

  /** Elements 1..n as a bag. */
  ghost function Bag(c: seq<nat>, n: nat): multiset<nat>
    requires n < |c|
  {
    multiset(c[1..n + 1])
  }

  // ----- bags

  lemma BagOfUpdate(c: seq<nat>, n: nat, i: nat, x: nat)
    requires 1 <= i <= n < |c|
    ensures Bag(c[i := x], n) == Bag(c, n) - multiset{c[i]} + multiset{x}
  {
  }

  lemma BagOfLast(c: seq<nat>, n: nat)
    requires 1 <= n < |c|
    ensures Bag(c, n) == Bag(c, n - 1) + multiset{c[n]}
  {
    assert c[1..n + 1] == c[1..n] + [c[n]];
  }

  lemma BagMember(c: seq<nat>, n: nat, i: nat)
    requires 1 <= i <= n < |c|
    ensures c[i] in Bag(c, n)
  {
  }

  lemma BagOfSwap(c: seq<nat>, n: nat, i: nat, j: nat)
    requires 1 <= i <= n < |c| && 1 <= j <= n && i != j
    ensures Bag(c[i := c[j]][j := c[i]], n) == Bag(c, n)
  {
  }

  // ----- order

  /** In an ordered heap cell 1 holds a least element. */
  lemma {:induction false} FrontIsLeast(c: seq<nat>, n: nat, key: Keys, j: nat)
    requires InKeys(c, n, key) && Ordered(c, n, key) && 1 <= j <= n
    ensures key[c[1]] <= key[c[j]]
  {
    if j > 1 {
      assert Edge(c, key, j);
      FrontIsLeast(c, n, key, j / 2);
    }
  }

  /** Ordered except at cell i, whose children are no earlier than its father. */
  ghost predicate OrderedBelow(c: seq<nat>, n: nat, key: Keys, i: nat)
    requires InKeys(c, n, key)
  {
    && (forall j :: 2 <= j <= n && j != i && j / 2 != i ==> Edge(c, key, j))
    && (forall j :: 2 <= j <= n && j / 2 == i && 2 <= i ==> key[c[i / 2]] <= key[c[j]])
  }

  // One round of sifting down: the smaller child moves up.
  lemma SiftedDown(c: seq<nat>, n: nat, key: Keys, top: nat, i: nat, child: nat)
    requires InKeys(c, n, key) && 1 <= top <= i < child <= n && child / 2 == i
    requires forall j :: 2 <= j <= n && j != top && j / 2 != i ==> Edge(c, key, j)
    requires forall j :: 2 <= j <= n && j / 2 == i && 2 <= i ==> key[c[i / 2]] <= key[c[j]]
    requires forall j :: 2 <= j <= n && j / 2 == i ==> key[c[child]] <= key[c[j]]
    requires key[c[child]] <= key[c[i]]
    ensures var d := c[i := c[child]][child := c[i]];
            && InKeys(d, n, key)
            && (forall j :: 2 <= j <= n && j != top && j / 2 != child ==> Edge(d, key, j))
            && (forall j :: 2 <= j <= n && j / 2 == child ==> key[d[child / 2]] <= key[d[j]])
  {
    var d := c[i := c[child]][child := c[i]];
    forall j | 2 <= j <= n && j != top && j / 2 != child
      ensures Edge(d, key, j)
    {
      if j / 2 != i {
        assert Edge(c, key, j);
      }
    }
    forall j | 2 <= j <= n && j / 2 == child
      ensures key[d[child / 2]] <= key[d[j]]
    {
      assert Edge(c, key, j);
    }
  }

  /** Sifting down from top0 has reached `top`, where the sifted element is, and c0 was ordered below top0. */
  ghost predicate Sifting(c0: seq<nat>, c: seq<nat>, n: nat, key: Keys, top0: nat, top: nat) {
    && |c0| == |c| && InKeys(c, n, key) && InKeys(c0, n, key) && 1 <= top0 <= top <= n && top0 / 2 <= n
    && (forall j :: 2 <= j <= n && j != top0 && j / 2 != top ==> Edge(c, key, j))
    && (forall j :: 2 <= j <= n && j / 2 == top && 2 <= top ==> key[c[top / 2]] <= key[c[j]])
    && c[top] == c0[top0]
    && (top == top0 ==> c == c0)
    && (top0 >= 2 ==> c[top0 / 2] == c0[top0 / 2])
    && (top != top0 && top0 >= 2 ==> key[c[top0 / 2]] <= key[c[top0]] <= key[c[top]])
  }

  lemma SiftStep(c0: seq<nat>, c: seq<nat>, n: nat, key: Keys, top0: nat, top: nat, child: nat)
    requires Sifting(c0, c, n, key, top0, top) && top < child <= n && child / 2 == top
    requires forall j :: 2 <= j <= n && j / 2 == top ==> key[c[child]] <= key[c[j]]
    requires key[c[child]] <= key[c[top]]
    ensures Sifting(c0, c[top := c[child]][child := c[top]], n, key, top0, child)
  {
    SiftedDown(c, n, key, top0, top, child);
    if top != top0 {
      assert top0 >= 2 ==> top0 / 2 != top && top0 / 2 != child && top0 != child;
    }
  }

  // The sifted element has no earlier child: only the edge above top0 can be out of order.
  lemma SiftEnd(c0: seq<nat>, c: seq<nat>, n: nat, key: Keys, top0: nat, top: nat)
    requires Sifting(c0, c, n, key, top0, top)
    requires forall j :: 2 <= j <= n && j / 2 == top ==> key[c[top]] <= key[c[j]]
    ensures Ordered(c, n, key) <==> top0 == 1 || key[c0[top0 / 2]] <= key[c0[top0]]
  {
    forall j | 2 <= j <= n && j != top0
      ensures Edge(c, key, j)
    {
    }
    if top0 >= 2 {
      assert Ordered(c, n, key) <==> Edge(c, key, top0);
    }
  }

  /** The cells after the element of cell `top` has sunk to its place: it changes places with its earlier child. */
  ghost function SiftDown(c: seq<nat>, n: nat, key: Keys, top: nat): seq<nat>
    requires InKeys(c, n, key) && top >= 1
    decreases n - top
  {
    var child := Child(c, n, key, top);
    if child > n || key[c[top]] < key[c[child]] then c
    else SiftDown(c[top := c[child]][child := c[top]], n, key, child)
  }

  /** The earlier child of cell `top`. */
  ghost function Child(c: seq<nat>, n: nat, key: Keys, top: nat): nat
    requires InKeys(c, n, key) && top >= 1
  {
    if 2 * top + 1 <= n && key[c[2 * top + 1]] < key[c[2 * top]] then 2 * top + 1 else 2 * top
  }

  /** What HEAP_remove_element and HEAP_remove_min leave: the last element has moved into cell i and sunk. */
  ghost function WithoutCell(c: seq<nat>, n: nat, key: Keys, i: nat): seq<nat>
    requires InKeys(c, n, key) && 1 <= i <= n
  {
    SiftDown(c[i := c[n]], n - 1, key, i)
  }

  /** The last element may take the place of the one in cell i: no father is later than it there. */
  ghost predicate LastFits(c: seq<nat>, n: nat, key: Keys, i: nat)
    requires InKeys(c, n, key) && 1 <= i <= n
  {
    i == n || i == 1 || key[c[i / 2]] <= key[c[n]]
  }

  /** No element of the bag is earlier than m. */
  ghost predicate LeastIn(m: nat, bag: multiset<nat>, key: Keys) {
    m < |key| && forall x :: x in bag ==> x < |key| && key[m] <= key[x]
  }

  ghost predicate SortedBy(s: seq<nat>, key: Keys) {
    && (forall a :: 0 <= a < |s| ==> s[a] < |key|)
    && (forall a, b :: 0 <= a < b < |s| ==> key[s[a]] <= key[s[b]])
  }

  /** s is sorted and no element of the bag is earlier than its last one. */
  ghost predicate Drained(s: seq<nat>, bag: multiset<nat>, key: Keys) {
    SortedBy(s, key) && (s != [] ==> LeastIn(s[|s| - 1], bag, key))
  }

  lemma DrainStep(s: seq<nat>, bag: multiset<nat>, key: Keys, m: nat)
    requires Drained(s, bag, key) && m in bag && LeastIn(m, bag, key)
    ensures Drained(s + [m], bag - multiset{m}, key)
  {
    forall x | x in bag - multiset{m}
      ensures x < |key| && key[m] <= key[x]
    {
      assert x in bag;
    }
  }

  lemma DrainStart(bag: multiset<nat>, key: Keys)
    ensures Drained([], bag, key)
  {
  }

  lemma DrainEnd(s: seq<nat>, bag: multiset<nat>, key: Keys)
    requires Drained(s, bag, key)
    ensures SortedBy(s, key)
  {
  }

  lemma FrontIsLeastIn(c: seq<nat>, n: nat, key: Keys)
    requires InKeys(c, n, key) && Ordered(c, n, key) && n >= 1
    ensures c[1] in Bag(c, n) && LeastIn(c[1], Bag(c, n), key)
  {
    LeastOfBag(c, n, key);
    BagMember(c, n, 1);
  }

  lemma NothingLeft(c: seq<nat>)
    requires |c| > 0
    ensures Bag(c, 0) == multiset{}
  {
  }

  lemma ChildIs(c: seq<nat>, n: nat, key: Keys, top: nat)
    requires InKeys(c, n, key) && top >= 1
    ensures Child(c, n, key, top) ==
              if 2 * top + 1 <= n && key[c[2 * top + 1]] < key[c[2 * top]] then 2 * top + 1 else 2 * top
  {
  }

  // One round of sifting.
  lemma SiftDownHere(c: seq<nat>, n: nat, key: Keys, top: nat)
    requires InKeys(c, n, key) && top >= 1
    ensures var child := Child(c, n, key, top);
            SiftDown(c, n, key, top) ==
              if child > n || key[c[top]] < key[c[child]] then c
              else SiftDown(c[top := c[child]][child := c[top]], n, key, child)
  {
  }

  class Heap {
    const cells: array<nat>
    var nelem: nat

    ghost predicate Valid(key: Keys)
      reads this, cells
    {
      cells.Length == HEAP_MAX_NELEM && InKeys(cells[..], nelem, key)
    }

    /** HEAP_init */
    constructor ()
      ensures Valid([]) && nelem == 0 && fresh(cells)
    {
      cells := new nat[HEAP_MAX_NELEM](_ => 0);
      nelem := 0;
    }

    /** HEAP_min */
    method Min(key: Keys) returns (m: int)
      requires Valid(key)
      ensures nelem == 0 ==> m == -1
      ensures nelem > 0 ==> m == cells[1] && cells[1] in Bag(cells[..], nelem) && m < |key|
      ensures nelem > 0 && Ordered(cells[..], nelem, key) ==>
                forall x :: x in Bag(cells[..], nelem) ==> x < |key| && key[m] <= key[x]
    {
      if nelem > 0 {
        LeastOfBag(cells[..], nelem, key);
        BagMember(cells[..], nelem, 1);
        return cells[1];
      }
      return -1;
    }

    /** heapify: sifts the element in cell top0 down to its place. */
    method Heapify(top0: nat, key: Keys)
      requires Valid(key) && 1 <= top0 <= nelem + 1 && top0 < cells.Length
      modifies cells
      ensures Valid(key) && Bag(cells[..], nelem) == Bag(old(cells[..]), nelem)
      ensures cells[..] == SiftDown(old(cells[..]), nelem, key, top0)
      ensures top0 == nelem + 1 ==> cells[..] == old(cells[..])
      ensures top0 <= nelem && OrderedBelow(old(cells[..]), nelem, key, top0) ==>
                (Ordered(cells[..], nelem, key) <==>
                   top0 == 1 || key[old(cells[..])[top0 / 2]] <= key[old(cells[..])[top0]])
    {
      hide Bag, Ordered, OrderedBelow, SiftDown, Child;
      var top, child := top0, 2 * top0;
      var tempvalue := cells[top];
      ghost var c := cells[..];
      SiftDownSound(c, nelem, key, top0);
      while child <= nelem
        invariant 1 <= top < cells.Length == HEAP_MAX_NELEM && child == 2 * top
        invariant Valid(key) && c == cells[..] && c[top] == tempvalue
        invariant SiftDown(c, nelem, key, top) == SiftDown(old(cells[..]), nelem, key, top0)
        decreases nelem - top
      {
        SiftDownHere(c, nelem, key, top);
        if child + 1 <= nelem && key[cells[child + 1]] < key[cells[child]] {
          child := child + 1;
        }
        ChildIs(c, nelem, key, top);
        if key[tempvalue] < key[cells[child]] {
          break;
        }
        c := c[top := c[child]][child := c[top]];
        cells[top] := cells[child];
        cells[child] := tempvalue;
        top, child := child, 2 * child;
      }
      SiftDownHere(c, nelem, key, top);
      ChildIs(c, nelem, key, top);
    }

    /** The end of a removal from cell j: the last element takes its place and sinks. */
    method MoveLast(j: nat, key: Keys)
      requires Valid(key) && 1 <= j <= nelem
      modifies this, cells
      ensures Valid(key) && nelem == old(nelem) - 1
      ensures cells[..] == WithoutCell(old(cells[..]), old(nelem), key, j)
      ensures Bag(cells[..], nelem) == Bag(old(cells[..]), old(nelem)) - multiset{old(cells[j])}
      ensures Ordered(old(cells[..]), old(nelem), key) ==>
                (Ordered(cells[..], nelem, key) <==> LastFits(old(cells[..]), old(nelem), key, j))
    {
      hide Bag, Ordered, OrderedBelow, SiftDown;
      ghost var c, n := cells[..], nelem;
      RemovedBag(c, n, j);
      RemovedOrder(c, n, key, j);
      cells[j] := cells[nelem];
      nelem := nelem - 1;
      assert cells[..] == c[j := c[n]];
      Heapify(j, key);
    }

    /** HEAP_remove_min */
    method RemoveMin(key: Keys) returns (m: int)
      requires Valid(key)
      modifies this, cells
      ensures Valid(key)
      ensures old(nelem) == 0 ==> m == -1 && nelem == 0
      ensures old(nelem) > 0 ==>
                && nelem == old(nelem) - 1 && m == old(cells[1])
                && Bag(cells[..], nelem) == Bag(old(cells[..]), old(nelem)) - multiset{m as nat}
                && cells[..] == WithoutCell(old(cells[..]), old(nelem), key, 1)
      ensures old(nelem) > 0 && Ordered(old(cells[..]), old(nelem), key) ==> Ordered(cells[..], nelem, key)
    {
      hide Bag, Ordered, WithoutCell;
      if nelem > 0 {
        m := cells[1];
        MoveLast(1, key);
        return;
      }
      return -1;
    }

    /** Taking the minimum until nothing is left yields every element, by nondecreasing deadline. */
    method DrainAll(key: Keys) returns (out: seq<nat>)
      requires Valid(key) && Ordered(cells[..], nelem, key)
      modifies this, cells
      ensures Valid(key) && nelem == 0
      ensures multiset(out) == Bag(old(cells[..]), old(nelem))
      ensures SortedBy(out, key)
    {
      hide Bag, Ordered, Drained, LeastIn;
      out := [];
      ghost var bag := Bag(cells[..], nelem);
      DrainStart(bag, key);
      while nelem > 0
        invariant Valid(key) && Ordered(cells[..], nelem, key)
        invariant bag == Bag(cells[..], nelem) && bag + multiset(out) == Bag(old(cells[..]), old(nelem))
        invariant Drained(out, bag, key)
        decreases nelem
      {
        FrontIsLeastIn(cells[..], nelem, key);
        var m := RemoveMin(key);
        DrainStep(out, bag, key, m);
        out, bag := out + [m], bag - multiset{m as nat};
      }
      DrainEnd(out, bag, key);
      NothingLeft(cells[..]);
    }

    /** HEAP_remove_element: takes out the first occurrence of k, cell i; r is -1 if there is none. */
    method RemoveElement(k: nat, key: Keys) returns (r: int, ghost i: nat)
      requires Valid(key)
      modifies this, cells
      ensures Valid(key)
      ensures r == 0 <==> k in Bag(old(cells[..]), old(nelem))
      ensures r != 0 ==> r == -1 && nelem == old(nelem) && cells[..] == old(cells[..])
      ensures r == 0 ==> 1 <= i <= old(nelem) && old(cells[..])[i] == k && nelem == old(nelem) - 1
      ensures r == 0 ==> Bag(cells[..], nelem) == Bag(old(cells[..]), old(nelem)) - multiset{k}
      ensures r == 0 && old(nelem) > 1 ==> cells[..] == WithoutCell(old(cells[..]), old(nelem), key, i)
      ensures r == 0 && Ordered(old(cells[..]), old(nelem), key) ==>
                (Ordered(cells[..], nelem, key) <==> LastFits(old(cells[..]), old(nelem), key, i))
    {
      hide Bag, Ordered, WithoutCell;
      var j := 1;
      while j <= nelem && cells[j] != k
        invariant 1 <= j <= nelem + 1
        invariant forall h :: 1 <= h < j ==> cells[h] != k
      {
        j := j + 1;
      }
      i := j;
      ghost var c, n := cells[..], nelem;
      if j <= nelem {
        BagMember(c, n, j);
        if nelem > 1 {
          MoveLast(j, key);
        } else {
          nelem := 0;
          cells[j] := 0;
          EmptyHeap(c, cells[..], key);
        }
        return 0, i;
      }
      NotInBag(c, n, k);
      return -1, i;
    }

    /**
     HEAP_insert. The source's own guard refuses only a 34th element, although cell 33 is one past the
     array; the precondition is what the timers guarantee, since at most 32 of them can be armed.
     */
    method Insert(k: nat, key: Keys) returns (r: int)
      requires Valid(key) && k < |key| && nelem < MAX_TIMERS
      modifies this, cells
      ensures Valid(key) && r == 0 && nelem == old(nelem) + 1
      ensures Bag(cells[..], nelem) == Bag(old(cells[..]), old(nelem)) + multiset{k}
      ensures Ordered(old(cells[..]), old(nelem), key) ==> Ordered(cells[..], nelem, key)
    {
      hide Inserting, InKeys, Bag, Ordered;
      ghost var c0, n0 := cells[..], nelem;
      nelem := nelem + 1;
      var i := nelem;
      ghost var v := c0[i := k];
      InsertStart(c0, n0, key, k);
      while i > 1 && key[k] < key[cells[i / 2]]
        invariant 1 <= i <= nelem == n0 + 1 < cells.Length == HEAP_MAX_NELEM == |v|
        invariant forall h :: 0 <= h < |v| && h != i ==> v[h] == cells[h]
        invariant i > 1 ==> v[i / 2] < |key|
        invariant v[i] == k && Inserting(c0, n0, v, key, k, i)
      {
        InsertStep(c0, n0, v, key, k, i);
        v := v[i := v[i / 2]][i / 2 := v[i]];
        cells[i] := cells[i / 2];
        i := i / 2;
      }
      InsertEnd(c0, n0, v, key, k, i);
      cells[i] := k;
      assert cells[..] == v;
      return 0;
    }
  }

  /** heapify(top0) on c0 has reached `top`. */
  ghost predicate Heapifying(c0: seq<nat>, c: seq<nat>, n: nat, key: Keys, top0: nat, top: nat) {
    && |c| == |c0| && InKeys(c0, n, key) && InKeys(c, n, key) && 1 <= top0 <= top
    && Bag(c, n) == Bag(c0, n)
    && (if top0 <= n then top <= n else c == c0)
    && (top0 <= n && OrderedBelow(c0, n, key, top0) ==> Sifting(c0, c, n, key, top0, top))
  }

  lemma HeapifyStart(c: seq<nat>, n: nat, key: Keys, top: nat)
    requires InKeys(c, n, key) && 1 <= top <= n + 1
    ensures Heapifying(c, c, n, key, top, top)
  {
  }

  lemma HeapifyStep(c0: seq<nat>, c: seq<nat>, n: nat, key: Keys, top0: nat, top: nat, child: nat)
    requires Heapifying(c0, c, n, key, top0, top) && InKeys(c, n, key) && 1 <= top < child <= n && child / 2 == top
    requires forall j :: 2 <= j <= n && j / 2 == top ==> key[c[child]] <= key[c[j]]
    requires key[c[child]] <= key[c[top]]
    ensures Heapifying(c0, c[top := c[child]][child := c[top]], n, key, top0, child)
  {
    hide Bag, Sifting, OrderedBelow;
    BagOfSwap(c, n, top, child);
    if top0 <= n && OrderedBelow(c0, n, key, top0) {
      SiftStep(c0, c, n, key, top0, top, child);
    }
  }

  lemma HeapifyEnd(c0: seq<nat>, c: seq<nat>, n: nat, key: Keys, top0: nat, top: nat)
    requires Heapifying(c0, c, n, key, top0, top) && InKeys(c, n, key) && top < |c| && (top0 <= n + 1)
    requires top <= n ==> forall j :: 2 <= j <= n && j / 2 == top ==> key[c[top]] <= key[c[j]]
    ensures Bag(c, n) == Bag(c0, n) && (top0 == n + 1 ==> c == c0) && InKeys(c0, n, key)
    ensures top0 <= n && OrderedBelow(c0, n, key, top0) ==>
              (Ordered(c, n, key) <==> top0 == 1 || key[c0[top0 / 2]] <= key[c0[top0]])
  {
    hide Bag, Sifting, OrderedBelow, Ordered;
    if top0 <= n && OrderedBelow(c0, n, key, top0) {
      SiftEnd(c0, c, n, key, top0, top);
    }
  }

  // From where sifting has reached `top` on to its end.
  lemma {:induction false} SiftsToTheEnd(c0: seq<nat>, c: seq<nat>, n: nat, key: Keys, top0: nat, top: nat)
    requires Heapifying(c0, c, n, key, top0, top) && InKeys(c, n, key) && 1 <= top < |c| && top0 <= n + 1
    ensures var d := SiftDown(c, n, key, top);
            && InKeys(c0, n, key) && |d| == |c| && InKeys(d, n, key)
            && Bag(d, n) == Bag(c0, n) && (top0 == n + 1 ==> d == c0)
            && (top0 <= n && OrderedBelow(c0, n, key, top0) ==>
                 (Ordered(d, n, key) <==> top0 == 1 || key[c0[top0 / 2]] <= key[c0[top0]]))
    decreases if top <= n then n - top else 0
  {
    hide Heapifying, Bag, Ordered, OrderedBelow, SiftDown;
    var child := Child(c, n, key, top);
    SiftDownHere(c, n, key, top);
    assert forall j :: 2 <= j <= n && j / 2 == top ==> j == 2 * top || j == 2 * top + 1;
    if child > n || key[c[top]] < key[c[child]] {
      HeapifyEnd(c0, c, n, key, top0, top);
    } else {
      HeapifyStep(c0, c, n, key, top0, top, child);
      SiftsToTheEnd(c0, c[top := c[child]][child := c[top]], n, key, top0, child);
    }
  }

  /** Sifting keeps the elements, and puts everything in order except the edge above where it started. */
  lemma SiftDownSound(c: seq<nat>, n: nat, key: Keys, top: nat)
    requires InKeys(c, n, key) && 1 <= top <= n + 1 && top < |c|
    ensures var d := SiftDown(c, n, key, top);
            && |d| == |c| && InKeys(d, n, key)
            && Bag(d, n) == Bag(c, n) && (top == n + 1 ==> d == c)
            && (top <= n && OrderedBelow(c, n, key, top) ==>
                 (Ordered(d, n, key) <==> top == 1 || key[c[top / 2]] <= key[c[top]]))
  {
    hide *;
    HeapifyStart(c, n, key, top);
    SiftsToTheEnd(c, c, n, key, top, top);
  }

  lemma LeastOfBag(c: seq<nat>, n: nat, key: Keys)
    requires InKeys(c, n, key) && n >= 1
    ensures Ordered(c, n, key) ==> forall x :: x in Bag(c, n) ==> x < |key| && key[c[1]] <= key[x]
  {
    if Ordered(c, n, key) {
      forall x | x in Bag(c, n)
        ensures x < |key| && key[c[1]] <= key[x]
      {
        var i :| 0 <= i < |c[1..n + 1]| && c[1..n + 1][i] == x;
        FrontIsLeast(c, n, key, i + 1);
      }
    }
  }

  // Cell i overwritten by the last element, which is dropped.
  lemma RemovedBag(c: seq<nat>, n: nat, i: nat)
    requires 1 <= i <= n < |c|
    ensures Bag(c[i := c[n]], n - 1) == Bag(c, n) - multiset{c[i]}
  {
    BagOfLast(c, n);
    if i < n {
      BagOfUpdate(c, n - 1, i, c[n]);
      BagMember(c, n - 1, i);
    }
  }

  lemma RemovedOrder(c: seq<nat>, n: nat, key: Keys, i: nat)
    requires InKeys(c, n, key) && 1 <= i <= n
    ensures InKeys(c[i := c[n]], n - 1, key)
    ensures Ordered(c, n, key) && i < n ==> OrderedBelow(c[i := c[n]], n - 1, key, i)
    ensures Ordered(c, n, key) && i == n ==> Ordered(c[i := c[n]], n - 1, key)
    ensures i >= 2 ==> c[i := c[n]][i / 2] == c[i / 2]
  {
    var d := c[i := c[n]];
    if Ordered(c, n, key) {
      forall j | 2 <= j <= n - 1
        ensures j != i && j / 2 != i ==> Edge(d, key, j)
        ensures j / 2 == i && 2 <= i ==> key[d[i / 2]] <= key[d[j]]
      {
        assert Edge(c, key, j);
        if 2 <= i {
          assert Edge(c, key, i);
        }
      }
    }
  }

  // The only element is gone.
  lemma EmptyHeap(c: seq<nat>, d: seq<nat>, key: Keys)
    requires |c| > 1 && |d| > 0
    ensures Bag(d, 0) == Bag(c, 1) - multiset{c[1]} && InKeys(d, 0, key) && Ordered(d, 0, key)
  {
    RemovedBag(c, 1, 1);
  }

  lemma NotInBag(c: seq<nat>, n: nat, k: nat)
    requires n < |c| && forall h :: 1 <= h <= n ==> c[h] != k
    ensures k !in Bag(c, n)
  {
  }

  /** Ordered except above cell i, which is no later than the children below it would be. */
  ghost predicate Rising(c: seq<nat>, n: nat, key: Keys, i: nat)
    requires InKeys(c, n, key)
  {
    && (forall j :: 2 <= j <= n && j != i ==> Edge(c, key, j))
    && (forall j :: 2 <= j <= n && j / 2 == i && 2 <= i ==> key[c[i / 2]] <= key[c[j]])
  }

  /** v is c0 with k added, which has risen to cell i. */
  ghost predicate Inserting(c0: seq<nat>, n0: nat, v: seq<nat>, key: Keys, k: nat, i: nat) {
    && |v| == |c0| && n0 + 1 < |v| && 1 <= i <= n0 + 1 && v[i] == k
    && InKeys(c0, n0, key) && InKeys(v, n0 + 1, key)
    && Bag(v, n0 + 1) == Bag(c0, n0) + multiset{k}
    && (Ordered(c0, n0, key) ==> Rising(v, n0 + 1, key, i))
  }

  lemma InsertStart(c0: seq<nat>, n0: nat, key: Keys, k: nat)
    requires InKeys(c0, n0, key) && n0 + 1 < |c0| && k < |key|
    ensures Inserting(c0, n0, c0[n0 + 1 := k], key, k, n0 + 1)
    ensures n0 + 1 > 1 ==> c0[(n0 + 1) / 2] < |key|
  {
    RiseStart(c0, n0, key, k);
  }

  lemma InsertStep(c0: seq<nat>, n0: nat, v: seq<nat>, key: Keys, k: nat, i: nat)
    requires Inserting(c0, n0, v, key, k, i) && 2 <= i && k < |key| && v[i / 2] < |key| && key[k] < key[v[i / 2]]
    ensures Inserting(c0, n0, v[i := v[i / 2]][i / 2 := v[i]], key, k, i / 2)
    ensures i / 2 > 1 ==> v[i / 2 / 2] < |key|
  {
    hide Bag, Ordered, Rising;
    BagOfSwap(v, n0 + 1, i, i / 2);
    if Ordered(c0, n0, key) {
      RiseStep(v, n0 + 1, key, i);
    }
  }

  lemma InsertEnd(c0: seq<nat>, n0: nat, v: seq<nat>, key: Keys, k: nat, i: nat)
    requires Inserting(c0, n0, v, key, k, i) && k < |key|
    requires i == 1 || (v[i / 2] < |key| && key[v[i / 2]] <= key[k])
    ensures InKeys(v, n0 + 1, key) && Bag(v, n0 + 1) == Bag(c0, n0) + multiset{k}
    ensures InKeys(c0, n0, key) && (Ordered(c0, n0, key) ==> Ordered(v, n0 + 1, key))
  {
  }

  lemma RiseStart(c: seq<nat>, n: nat, key: Keys, k: nat)
    requires InKeys(c, n, key) && n + 1 < |c| && k < |key|
    ensures InKeys(c[n + 1 := k], n + 1, key)
    ensures Bag(c[n + 1 := k], n + 1) == Bag(c, n) + multiset{k}
    ensures Ordered(c, n, key) ==> Rising(c[n + 1 := k], n + 1, key, n + 1)
  {
    var d := c[n + 1 := k];
    BagOfLast(d, n + 1);
    assert d[1..n + 1] == c[1..n + 1];
    if Ordered(c, n, key) {
      forall j | 2 <= j <= n
        ensures Edge(d, key, j)
      {
        assert Edge(c, key, j);
      }
    }
  }

  lemma RiseStep(c: seq<nat>, n: nat, key: Keys, i: nat)
    requires InKeys(c, n, key) && 2 <= i <= n && Rising(c, n, key, i) && key[c[i]] < key[c[i / 2]]
    ensures InKeys(c[i := c[i / 2]][i / 2 := c[i]], n, key)
    ensures Rising(c[i := c[i / 2]][i / 2 := c[i]], n, key, i / 2)
  {
    var d := c[i := c[i / 2]][i / 2 := c[i]];
    forall j | 2 <= j <= n && j != i / 2
      ensures Edge(d, key, j)
    {
      assert j != i ==> Edge(c, key, j);
    }
    forall j | 2 <= j <= n && j / 2 == i / 2 && 2 <= i / 2
      ensures key[d[i / 2 / 2]] <= key[d[j]]
    {
      assert Edge(c, key, i / 2);
      assert j != i ==> Edge(c, key, j);
    }
  }

}
