/**
 The allocator's control structure (server/core/libc/tlsf.c, tlsf_t): 32 lists of
 small blocks, 23 x 32 lists of larger ones, and the three bitmaps over them.
 `matrix[fl][sl]` is stored row by row, as C lays it out.
 */
module FreeLists {
  import opened Bits
  import opened Bitmaps
  import opened Links
  import opened SizeClasses

  /** Each bit is set exactly when its list, or its row of lists, is not empty. */
  ghost predicate BitmapsMatch(lists: seq<seq<Addr>>, sb: Word, fl: Word, sl: seq<Word>) {
    && |lists| == CLASSES
    && Members(sb) == Occupied(lists, 0)
    && RowsMatch(lists, 32, REAL_FLI, fl, sl)
  }

  // After rewriting one small list its bit tells whether it is occupied.
  lemma SmallBitmaps(lists: seq<seq<Addr>>, sb: Word, fl: Word, sl: seq<Word>, c: BitNo, s: seq<Addr>, sb': Word)
    requires BitmapsMatch(lists, sb, fl, sl)
    requires Members(sb') == if s != [] then Members(sb) + {c} else Members(sb) - {c}
    ensures BitmapsMatch(lists[c := s], sb', fl, sl)
  {
  }

  // The same for a large list, whose row has a bit of its own.
  lemma LargeBitmaps(lists: seq<seq<Addr>>, sb: Word, fl: Word, sl: seq<Word>, f: BitNo, j: BitNo, s: seq<Addr>,
                     row: Word, fl': Word)
    requires BitmapsMatch(lists, sb, fl, sl) && f < REAL_FLI
    requires Members(row) == if s != [] then Members(sl[f]) + {j} else Members(sl[f]) - {j}
    requires Members(fl') == if row != 0 then Members(fl) + {f} else Members(fl) - {f}
    ensures BitmapsMatch(lists[32 + 32 * f + j := s], sb, fl', sl[f := row])
  {
    hide Members, Occupied;
    OccupiedAfter(lists, 0, 32 + 32 * f + j, s);
    RowsAfter(lists, 32, REAL_FLI, fl, sl, f, j, s, row, fl');
  }

  // A busy small list has its bit set.
  lemma SmallBitIsSet(lists: seq<seq<Addr>>, sb: Word, fl: Word, sl: seq<Word>, c: BitNo)
    requires BitmapsMatch(lists, sb, fl, sl) && lists[c] != []
    ensures c in Members(sb)
  {
  }

  class FreeListTable {
    var sbBitmap: Word
    var sbArray: seq<Addr>
    var flBitmap: Word
    var slBitmap: seq<Word>
    var matrix: seq<Addr>
    var link: Memory  // ptr.free_ptr of every block
    ghost var lists: seq<seq<Addr>>  // the free lists, by class

    ghost predicate Valid()
      reads this
    {
      && |sbArray| == 32
      && |matrix| == REAL_FLI * SLI
      && Family(link, sbArray + matrix, lists)
      && BitmapsMatch(lists, sbBitmap, flBitmap, slBitmap)
    }

    constructor ()
      ensures Valid() && lists == seq(CLASSES, _ => [])
    {
      new;
      Clear();
    }

    /** The zeroed control structure. */
    method Clear()
      modifies this
      ensures Valid() && lists == seq(CLASSES, _ => [])
    {
      sbBitmap, flBitmap := 0, 0;
      sbArray, matrix := seq(32, _ => NULL), seq(REAL_FLI * SLI, _ => NULL);
      slBitmap := seq(REAL_FLI, _ => 0);
      link := map[];
      lists := seq(CLASSES, _ => []);
      ZeroIsEmpty(0);
      EmptyRows(lists, 32, REAL_FLI, slBitmap);
    }

    // ----- the pointer part shared by the macros

    /** b's own link and the old head's back pointer. */
    method LinkFront(b: Addr, head: Addr)
      requires head != NULL ==> head in link
      modifies `link
      ensures link == PushFrontLinks(old(link), head, b)
    {
      link := link[b := Link(NULL, head)];
      if head != NULL {
        link := link[head := link[head].(prev := b)];
      }
    }

    /** Bridges b's neighbours and clears its own link. */
    method LinkOut(b: Addr)
      requires b in link
      requires link[b].next != NULL ==> link[b].next in link
      requires link[b].prev != NULL ==> link[b].prev in link
      modifies `link
      ensures link == UnlinkLinks(old(link), b)
    {
      var Link(prev, next) := link[b];
      if next != NULL {
        link := link[next := link[next].(prev := prev)];
      }
      if prev != NULL {
        link := link[prev := link[prev].(next := next)];
      }
      link := link[b := NO_LINK];
    }

    /** Clears both links of a block that is on no list. */
    method ClearLink(b: Addr)
      requires Valid() && !Listed(lists, b)
      modifies `link
      ensures Valid()
    {
      UnlistedLink(link, sbArray + matrix, lists, b, NO_LINK);
      link := link[b := NO_LINK];
    }

    // ----- small blocks

    /** INSERT_SMALL_BLOCK */
    method InsertSmall(b: Addr, i: BitNo)
      requires Valid() && b != NULL && !Listed(lists, b)
      modifies this
      ensures Valid() && lists == old(lists)[i := [b] + old(lists)[i]]
    {
      hide Members, SetBit, Occupied, PushFrontLinks;
      ghost var heads, s := sbArray + matrix, [b] + lists[i];
      PushFrontFamily(link, heads, lists, i, b);
      HeadInMemory(link, heads, lists, i);
      MembersOfSetBit(sbBitmap, i);
      SmallBitmaps(lists, sbBitmap, flBitmap, slBitmap, i, s, SetBit(sbBitmap, i));
      LinkFront(b, sbArray[i]);
      sbArray := sbArray[i := b];
      sbBitmap := SetBit(sbBitmap, i);
      lists := lists[i := s];
      assert sbArray + matrix == heads[i := b];
    }

    /** EXTRACT_SMALL_BLOCK; k is the position of b in its list. */
    method ExtractSmall(b: Addr, i: BitNo, ghost k: nat)
      requires Valid() && k < |lists[i]| && lists[i][k] == b
      modifies this
      ensures Valid() && lists == old(lists)[i := Without(old(lists)[i], k)]
    {
      hide Members, ClearBit, Occupied, UnlinkLinks;
      ghost var heads, rest := sbArray + matrix, Without(lists[i], k);
      UnlinkFamily(link, heads, lists, i, k);
      NeighboursInMemory(link, lists[i], k);
      SmallBitIsSet(lists, sbBitmap, flBitmap, slBitmap, i);
      MembersOfClearBit(sbBitmap, i);
      var next := link[b].next;
      LinkOut(b);
      if sbArray[i] == b {
        sbArray := sbArray[i := next];
      }
      assert sbArray + matrix == heads[i := sbArray[i]];
      HeadTellsEmpty(link, sbArray + matrix, lists[i := rest], i);
      if sbArray[i] == NULL {
        sbBitmap := ClearBit(sbBitmap, i);
      }
      SmallBitmaps(lists, old(sbBitmap), flBitmap, slBitmap, i, rest, sbBitmap);
      lists := lists[i := rest];
    }

    /** EXTRACT_SMALL_BLOCK_HDR: takes the first block; its own link is left as it is. */
    method ExtractSmallHead(b: Addr, i: BitNo)
      requires Valid() && lists[i] != [] && lists[i][0] == b
      modifies this
      ensures Valid() && lists == old(lists)[i := old(lists)[i][1..]]
    {
      hide Members, ClearBit, Occupied, PopFrontLinks;
      ghost var heads, rest := sbArray + matrix, lists[i][1..];
      PopFrontFamily(link, heads, lists, i);
      NeighboursInMemory(link, lists[i], 0);
      SmallBitIsSet(lists, sbBitmap, flBitmap, slBitmap, i);
      MembersOfClearBit(sbBitmap, i);
      sbArray := sbArray[i := link[b].next];
      assert sbArray + matrix == heads[i := sbArray[i]];
      UnlinkFront(b, sbArray[i]);
      HeadTellsEmpty(link, sbArray + matrix, lists[i := rest], i);
      if sbArray[i] == NULL {
        sbBitmap := ClearBit(sbBitmap, i);
      }
      SmallBitmaps(lists, old(sbBitmap), flBitmap, slBitmap, i, rest, sbBitmap);
      lists := lists[i := rest];
    }

    /** The new front loses its back pointer. */
    method UnlinkFront(b: Addr, next: Addr)
      requires b in link && link[b].next == next && (next != NULL ==> next in link)
      modifies `link
      ensures link == PopFrontLinks(old(link), b)
    {
      if next != NULL {
        link := link[next := link[next].(prev := NULL)];
      }
    }

    // ----- large blocks

    /** INSERT_BLOCK */
    method Insert(b: Addr, fl: BitNo, sl: BitNo)
      requires Valid() && fl < REAL_FLI && b != NULL && !Listed(lists, b)
      modifies this
      ensures Valid() && var c := 32 + 32 * fl + sl; lists == old(lists)[c := [b] + old(lists)[c]]
    {
      hide Members, SetBit, Occupied, PushFrontLinks;
      var cell := SLI * fl + sl;
      ghost var c := 32 + 32 * fl + sl;
      ghost var heads, s := sbArray + matrix, [b] + lists[c];
      assert heads[c] == matrix[cell];
      PushFrontFamily(link, heads, lists, c, b);
      HeadInMemory(link, heads, lists, c);
      LinkFront(b, matrix[cell]);
      matrix := matrix[cell := b];
      assert sbArray + matrix == heads[c := b];
      MembersOfSetBit(slBitmap[fl], sl);
      MembersOfSetBit(flBitmap, fl);
      slBitmap := slBitmap[fl := SetBit(slBitmap[fl], sl)];
      flBitmap := SetBit(flBitmap, fl);
      ZeroIsEmpty(slBitmap[fl]);
      LargeBitmaps(lists, sbBitmap, old(flBitmap), old(slBitmap), fl, sl, s, slBitmap[fl], flBitmap);
      lists := lists[c := s];
    }

    /** EXTRACT_BLOCK; k is the position of b in its list. */
    method Extract(b: Addr, fl: BitNo, sl: BitNo, ghost k: nat)
      requires Valid() && fl < REAL_FLI && var c := 32 + 32 * fl + sl; k < |lists[c]| && lists[c][k] == b
      modifies this
      ensures Valid() && var c := 32 + 32 * fl + sl; lists == old(lists)[c := Without(old(lists)[c], k)]
    {
      hide Members, ClearBit, Occupied, UnlinkLinks;
      var cell := SLI * fl + sl;
      ghost var c := 32 + 32 * fl + sl;
      ghost var heads, rest := sbArray + matrix, Without(lists[c], k);
      assert heads[c] == matrix[cell];
      UnlinkFamily(link, heads, lists, c, k);
      NeighboursInMemory(link, lists[c], k);
      var next := link[b].next;
      LinkOut(b);
      if matrix[cell] == b {
        matrix := matrix[cell := next];
      }
      assert sbArray + matrix == heads[c := matrix[cell]];
      HeadTellsEmpty(link, sbArray + matrix, lists[c := rest], c);
      ClearBits(c, fl, sl, cell, rest);
    }

    /** EXTRACT_BLOCK_HDR: takes the first block. */
    method ExtractHead(b: Addr, fl: BitNo, sl: BitNo)
      requires Valid() && fl < REAL_FLI && var c := 32 + 32 * fl + sl; lists[c] != [] && lists[c][0] == b
      modifies this
      ensures Valid() && var c := 32 + 32 * fl + sl; lists == old(lists)[c := old(lists)[c][1..]]
    {
      hide Members, ClearBit, Occupied, PopFrontLinks;
      var cell := SLI * fl + sl;
      ghost var c := 32 + 32 * fl + sl;
      ghost var heads, rest := sbArray + matrix, lists[c][1..];
      assert heads[c] == matrix[cell];
      PopFrontFamily(link, heads, lists, c);
      NeighboursInMemory(link, lists[c], 0);
      matrix := matrix[cell := link[b].next];
      assert sbArray + matrix == heads[c := matrix[cell]];
      UnlinkFront(b, matrix[cell]);
      HeadNotInRest(link, sbArray + matrix, old(lists), c, b);
      link := link[b := NO_LINK];
      HeadTellsEmpty(link, sbArray + matrix, lists[c := rest], c);
      ClearBits(c, fl, sl, cell, rest);
    }

    /** The bits of a large list after an extraction. */
    method ClearBits(ghost c: nat, fl: BitNo, sl: BitNo, cell: nat, ghost rest: seq<Addr>)
      requires |sbArray| == 32 && |matrix| == REAL_FLI * SLI && BitmapsMatch(lists, sbBitmap, flBitmap, slBitmap)
      requires fl < REAL_FLI && c == 32 + 32 * fl + sl && cell == SLI * fl + sl && lists[c] != []
      requires Family(link, sbArray + matrix, lists[c := rest]) && (matrix[cell] == NULL <==> rest == [])
      modifies `slBitmap, `flBitmap, `lists
      ensures Valid() && lists == old(lists)[c := rest]
    {
      hide Members, ClearBit, Occupied, Family;
      RowTells(lists, 32, REAL_FLI, flBitmap, slBitmap, fl, sl);
      MembersOfClearBit(slBitmap[fl], sl);
      MembersOfClearBit(flBitmap, fl);
      if matrix[cell] == NULL {
        slBitmap := slBitmap[fl := ClearBit(slBitmap[fl], sl)];
      }
      if slBitmap[fl] == 0 {
        flBitmap := ClearBit(flBitmap, fl);
      }
      LargeBitmaps(lists, sbBitmap, old(flBitmap), old(slBitmap), fl, sl, rest, slBitmap[fl], flBitmap);
      assert old(slBitmap)[fl := slBitmap[fl]] == slBitmap;
      lists := lists[c := rest];
    }

    // ----- the searches

    /** FIND_SMALL_SUITABLE_BLOCK: the first block of the lowest occupied list for sizes of at least r. */
    method FindSmallSuitable(r: nat) returns (b: Addr, i: int)
      requires Valid()
      ensures b == NULL ==> r >= SMALL_BLOCK || forall c :: r / 4 <= c < 32 ==> lists[c] == []
      ensures b != NULL ==> r < SMALL_BLOCK && r / 4 <= i < 32 && lists[i] != [] && b == lists[i][0]
      ensures b != NULL ==> forall c :: r / 4 <= c < i ==> lists[c] == []
    {
      hide Members, From;
      b, i := NULL, -1;
      if r >= SMALL_BLOCK {
        return;
      }
      MembersOfFrom(sbBitmap, r / 4);
      i := Ffs(From(sbBitmap, r / 4));
      forall c | r / 4 <= c < 32
        ensures lists[c] != [] <==> c in Members(From(sbBitmap, r / 4))
      {
        assert Busy(lists, 0, c) <==> lists[c] != [];
      }
      if i > -1 {
        HeadIsFirst(link, sbArray + matrix, lists, i);
        b := sbArray[i];
      }
    }

    /** FIND_SUITABLE_BLOCK: the first block of the lowest occupied list from matrix[fl0][sl0] on. */
    method FindSuitable(fl0: BitNo, sl0: BitNo) returns (b: Addr, fl: int, sl: int)
      requires Valid() && fl0 < REAL_FLI
      ensures b == NULL ==> forall c :: 32 + 32 * fl0 + sl0 <= c < CLASSES ==> lists[c] == []
      ensures b != NULL ==> 0 <= fl < REAL_FLI && 0 <= sl < SLI
      ensures b != NULL ==> var c := 32 + 32 * fl + sl; 32 + 32 * fl0 + sl0 <= c && lists[c] != [] && b == lists[c][0]
      ensures b != NULL ==> forall d :: 32 + 32 * fl0 + sl0 <= d < 32 + 32 * fl + sl ==> lists[d] == []
    {
      hide Members, From, Family, Occupied, RowsMatch;
      b, fl, sl := NULL, fl0, sl0;
      assert |slBitmap| == REAL_FLI by { RowsAre(); }
      var row := From(slBitmap[fl], sl);
      MembersOfFrom(slBitmap[fl], sl);
      ZeroIsEmpty(row);
      if row != 0 {
        sl := Ffs(row);
        SkippedLists(lists, 32, REAL_FLI, flBitmap, slBitmap, fl, sl0, sl);
        LargeHead(fl, sl);
        b := matrix[SLI * fl + sl];
      } else {
        SkippedLists(lists, 32, REAL_FLI, flBitmap, slBitmap, fl, sl0, 32);
        b, fl, sl := FindInLaterRow(fl0);
      }
    }

    /** The second half of the search: the first block of the lowest occupied list in the rows after fl0. */
    method FindInLaterRow(fl0: BitNo) returns (b: Addr, fl: int, sl: int)
      requires Valid() && fl0 < REAL_FLI
      ensures b == NULL ==> forall c :: 64 + 32 * fl0 <= c < CLASSES ==> lists[c] == []
      ensures b != NULL ==> fl0 < fl < REAL_FLI && 0 <= sl < SLI
      ensures b != NULL ==> var c := 32 + 32 * fl + sl; lists[c] != [] && b == lists[c][0]
      ensures b != NULL ==> forall d :: 64 + 32 * fl0 <= d < 32 + 32 * fl + sl ==> lists[d] == []
    {
      hide Members, From, Family, Occupied, RowsMatch;
      b, sl := NULL, 0;
      RowsAre();
      MembersOfFrom(flBitmap, fl0 + 1);
      fl := Ffs(From(flBitmap, fl0 + 1));
      SkippedRows(lists, 32, REAL_FLI, flBitmap, slBitmap, fl0 + 1, if fl > 0 then fl else REAL_FLI);
      if fl > 0 {
        ZeroIsEmpty(slBitmap[fl]);
        sl := Ffs(slBitmap[fl]);
        SkippedLists(lists, 32, REAL_FLI, flBitmap, slBitmap, fl, 0, sl);
        LargeHead(fl, sl);
        b := matrix[SLI * fl + sl];
      }
    }

    lemma RowsAre()
      requires Valid()
      ensures |slBitmap| == REAL_FLI
      ensures forall f :: f in Members(flBitmap) ==> 0 <= f < REAL_FLI && slBitmap[f] != 0
    {
    }

    lemma LargeHead(fl: BitNo, sl: BitNo)
      requires Valid() && fl < REAL_FLI && sl in Members(slBitmap[fl])
      ensures var c := 32 + 32 * fl + sl; lists[c] != [] && matrix[SLI * fl + sl] == lists[c][0] != NULL
    {
      RowTells(lists, 32, REAL_FLI, flBitmap, slBitmap, fl, sl);
      HeadIsFirst(link, sbArray + matrix, lists, 32 + 32 * fl + sl);
    }
  }

  // A list that has lost its first block still matches when that block's link is cleared.
  lemma HeadNotInRest(m: Memory, heads: seq<Addr>, lists: seq<seq<Addr>>, c: nat, b: Addr)
    requires |heads| == |lists| && c < |lists| && lists[c] != [] && lists[c][0] == b && Distinct(lists[c])
    requires forall c, d, x :: 0 <= c < |lists| && 0 <= d < |lists| && x in lists[c] && x in lists[d] ==> c == d
    requires Family(m, heads, lists[c := lists[c][1..]])
    ensures Family(m[b := NO_LINK], heads, lists[c := lists[c][1..]])
  {
    var rest := lists[c := lists[c][1..]];
    forall d | 0 <= d < |rest|
      ensures b !in rest[d]
    {
      assert b in lists[c];
    }
    UnlistedLink(m, heads, rest, b, NO_LINK);
  }

  // With a single occupied list exactly its bits are set.
  lemma OnlyBits(lists: seq<seq<Addr>>, sb: Word, fl: Word, sl: seq<Word>, c: nat)
    requires BitmapsMatch(lists, sb, fl, sl) && c < CLASSES
    requires forall d :: 0 <= d < CLASSES ==> (lists[d] != [] <==> d == c)
    ensures Members(sb) == if c < 32 then {c} else {}
    ensures Members(fl) == if c < 32 then {} else {(c - 32) / 32}
    ensures forall f :: 0 <= f < REAL_FLI ==> Members(sl[f]) == if c >= 32 && f == (c - 32) / 32 then {c % 32} else {}
  {
    hide Members;
    forall f | 0 <= f < REAL_FLI
      ensures Members(sl[f]) == if c >= 32 && f == (c - 32) / 32 then {c % 32} else {}
      ensures sl[f] != 0 <==> c >= 32 && f == (c - 32) / 32
    {
      ZeroIsEmpty(sl[f]);
      var first := 32 + 32 * f;
      assert forall i: int :: 0 <= i < 32 ==> (Busy(lists, first, i) <==> c == first + i);
    }
    assert forall i: int :: 0 <= i < 32 ==> (Busy(lists, 0, i) <==> c == i);
  }
}
