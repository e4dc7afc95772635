/**
 Two-level bitmaps over an array of lists, as kept by the allocator (23 rows of 32
 lists) and by the scheduler (32 rows of 32 queues): a bit per list, and a bit per
 row of lists that has any bit set.
 */
module Bitmaps {
  import opened Bits
  import opened Links

  ghost predicate Busy(lists: seq<seq<Addr>>, first: nat, i: int) {
    0 <= i && first + i < |lists| && lists[first + i] != []
  }

  /** The occupied lists among the 32 from `first` on. */
  ghost function Occupied(lists: seq<seq<Addr>>, first: nat): set<int> {
    set i: int | 0 <= i < 32 && Busy(lists, first, i)
  }

  /** `rows` rows of 32 lists from `first` on, their words sl and the word fl over the rows. */
  ghost predicate RowsMatch(lists: seq<seq<Addr>>, first: nat, rows: nat, fl: Word, sl: seq<Word>) {
    && first + 32 * rows <= |lists| && |sl| == rows <= 32
    && (forall f :: 0 <= f < rows ==> Members(sl[f]) == Occupied(lists, first + 32 * f))
    && Members(fl) == set f: int | 0 <= f < rows && sl[f] != 0
  }

  lemma OccupiedAfter(lists: seq<seq<Addr>>, first: nat, c: nat, s: seq<Addr>)
    requires first + 32 <= |lists| && c < |lists|
    ensures Occupied(lists[c := s], first)
         == if !(first <= c < first + 32) then Occupied(lists, first)
            else if s != [] then Occupied(lists, first) + {c - first}
            else Occupied(lists, first) - {c - first}
  {
  }

  // Rewriting list j of row f.
  lemma RowsAfter(lists: seq<seq<Addr>>, first: nat, rows: nat, fl: Word, sl: seq<Word>, f: BitNo, j: BitNo,
                  s: seq<Addr>, row: Word, fl': Word)
    requires RowsMatch(lists, first, rows, fl, sl) && f < rows
    requires Members(row) == if s != [] then Members(sl[f]) + {j} else Members(sl[f]) - {j}
    requires Members(fl') == if row != 0 then Members(fl) + {f} else Members(fl) - {f}
    ensures RowsMatch(lists[first + 32 * f + j := s], first, rows, fl', sl[f := row])
  {
    hide Members, Occupied;
    var c, sl' := first + 32 * f + j, sl[f := row];
    forall g | 0 <= g < rows
      ensures Members(sl'[g]) == Occupied(lists[c := s], first + 32 * g)
    {
      OccupiedAfter(lists, first + 32 * g, c, s);
    }
    var nonzero := set g: int | 0 <= g < rows && sl'[g] != 0;
    assert forall g :: g in nonzero <==> if g == f then row != 0 else g in Members(fl);
  }

  // The bit of a list, and of its row.
  lemma RowTells(lists: seq<seq<Addr>>, first: nat, rows: nat, fl: Word, sl: seq<Word>, f: BitNo, j: BitNo)
    requires RowsMatch(lists, first, rows, fl, sl) && f < rows
    ensures lists[first + 32 * f + j] != [] <==> j in Members(sl[f])
    ensures f in Members(fl) <==> sl[f] != 0
    ensures lists[first + 32 * f + j] != [] ==> f in Members(fl)
  {
  }

  lemma EmptyRows(lists: seq<seq<Addr>>, first: nat, rows: nat, sl: seq<Word>)
    requires first + 32 * rows <= |lists| && |sl| == rows <= 32
    requires (forall c :: 0 <= c < |lists| ==> lists[c] == []) && forall f :: 0 <= f < rows ==> sl[f] == 0
    ensures RowsMatch(lists, first, rows, 0, sl)
  {
  }

  // Clear bits mean empty lists: within a row, and over whole rows.

  lemma SkippedLists(lists: seq<seq<Addr>>, first: nat, rows: nat, fl: Word, sl: seq<Word>, f: BitNo, lo: nat, hi: nat)
    requires RowsMatch(lists, first, rows, fl, sl)
    requires f < rows && hi <= 32 && forall j :: lo <= j < hi ==> j !in Members(sl[f])
    ensures forall d :: first + 32 * f + lo <= d < first + 32 * f + hi ==> lists[d] == []
  {
    hide Members;
    forall d | first + 32 * f + lo <= d < first + 32 * f + hi
      ensures lists[d] == []
    {
      RowTells(lists, first, rows, fl, sl, f, d - first - 32 * f);
    }
  }

  lemma SkippedRows(lists: seq<seq<Addr>>, first: nat, rows: nat, fl: Word, sl: seq<Word>, lo: nat, hi: nat)
    requires RowsMatch(lists, first, rows, fl, sl)
    requires hi <= rows && forall f :: lo <= f < hi ==> f !in Members(fl)
    ensures forall d :: first + 32 * lo <= d < first + 32 * hi ==> lists[d] == []
  {
    hide Members;
    forall d | first + 32 * lo <= d < first + 32 * hi
      ensures lists[d] == []
    {
      RowTells(lists, first, rows, fl, sl, (d - first) / 32, (d - first) % 32);
    }
  }
}
