/**
 The two-level segregated-fit allocator (server/core/libc/tlsf.c): block headers
 with boundary tags over the free lists of FreeLists.

 The header word `size` packs the block size with two flag bits; sizes are multiples
 of four, so the three parts are kept as separate fields here. Headers are a map from
 addresses; `blocks` is the row of blocks they describe.
 */
module Tlsf {
  import opened Bits
  import opened Links
  import opened SizeClasses
  import opened Pool
  import opened FreeLists

  const SIZEOF_TLSF := 3176
  const LARGEST_REQUEST := 0x3F00_0000

  datatype Header = Header(prevHdr: Addr, size: nat, free: bool, prevFree: bool)

  /** Header i of the row, the sentinel's for i == |p|. */
  ghost predicate HeaderOk(hdr: map<Addr, Header>, p: seq<Block>, end: nat, i: nat)
    requires i <= |p|
  {
    var a := AddrAt(p, end, i);
    && a in hdr
    && hdr[a].size == (if i < |p| then p[i].size else 0)
    && hdr[a].free == FreeAt(p, i)
    && hdr[a].prevFree == FreeAt(p, i - 1)
    && (FreeAt(p, i - 1) ==> hdr[a].prevHdr == p[i - 1].addr)
  }

  ghost predicate HeadersMatch(hdr: map<Addr, Header>, p: seq<Block>, end: nat) {
    forall i :: 0 <= i <= |p| ==> HeaderOk(hdr, p, end, i)
  }

  ghost predicate HasFree(p: seq<Block>, x: Addr, c: int) {
    exists i :: 0 <= i < |p| && p[i].free && p[i].addr == x && ClassOf(p[i].size) == c
  }

  /** A block is on the list of its size class exactly when it is free. */
  ghost predicate ListsMatch(lists: seq<seq<Addr>>, p: seq<Block>) {
    && |lists| == CLASSES
    && forall c, x: Addr :: 0 <= c < CLASSES ==> (x in lists[c] <==> HasFree(p, x, c))
  }

  // ----- replacing a stretch of blocks

  lemma HeadersReplaced(hdr: map<Addr, Header>, hdr': map<Addr, Header>, p: seq<Block>, start: nat, end: nat,
                        i: nat, j: nat, mid: seq<Block>)
    requires Tiled(p, start, end) && HeadersMatch(hdr, p, end) && i < j <= |p| && |mid| > 0
    requires mid[0].addr == p[i].addr
    requires var q := Replace(p, i, j, mid);
             forall k :: i <= k <= i + |mid| ==> HeaderOk(hdr', q, end, k)
    requires forall x :: x in hdr && !(p[i].addr <= x <= AddrAt(p, end, j)) ==> x in hdr' && hdr'[x] == hdr[x]
    ensures HeadersMatch(hdr', Replace(p, i, j, mid), end)
  {
    var q := Replace(p, i, j, mid);
    forall k | 0 <= k <= |q|
      ensures HeaderOk(hdr', q, end, k)
    {
      if k < i {
        assert HeaderOk(hdr, p, end, k);
        InOrder(p, start, end, k, i);
      } else if k > i + |mid| {
        var o := k - |mid| - i + j;
        assert HeaderOk(hdr, p, end, o);
        InOrder(p, start, end, j, o);
      }
    }
  }

  lemma HasFreeReplaced(p: seq<Block>, start: nat, end: nat, i: nat, j: nat, mid: seq<Block>, x: Addr, c: int)
    requires Tiled(p, start, end) && i < j <= |p|
    ensures HasFree(Replace(p, i, j, mid), x, c)
       <==> HasFree(mid, x, c) || (HasFree(p, x, c) && !(p[i].addr <= x < AddrAt(p, end, j)))
  {
    var q := Replace(p, i, j, mid);
    if HasFree(q, x, c) {
      var k :| 0 <= k < |q| && q[k].free && q[k].addr == x && ClassOf(q[k].size) == c;
      if k < i {
        assert q[k] == p[k];
        InOrder(p, start, end, k, i);
      } else if k < i + |mid| {
        assert q[k] == mid[k - i];
      } else {
        var o := k - |mid| - i + j;
        assert q[k] == p[o];
        if j < o {
          InOrder(p, start, end, j, o);
        }
      }
    }
    if HasFree(mid, x, c) {
      var k :| 0 <= k < |mid| && mid[k].free && mid[k].addr == x && ClassOf(mid[k].size) == c;
      assert q[i + k] == mid[k];
    }
    if HasFree(p, x, c) && !(p[i].addr <= x < AddrAt(p, end, j)) {
      var o :| 0 <= o < |p| && p[o].free && p[o].addr == x && ClassOf(p[o].size) == c;
      if o < i {
        assert q[o] == p[o];
      } else {
        if i < o {
          InOrder(p, start, end, i, o);
        }
        if o < j {
          InOrder(p, start, end, o, j);
        }
        assert q[o - j + i + |mid|] == p[o];
      }
    }
  }

  // ----- the lists while a stretch of blocks is being worked on

  /** The lists hold the free blocks outside lo..hi. */
  ghost predicate ListsMatchOutside(lists: seq<seq<Addr>>, p: seq<Block>, lo: nat, hi: nat) {
    && |lists| == CLASSES
    && forall c, x: Addr :: 0 <= c < CLASSES ==> (x in lists[c] <==> HasFree(p, x, c) && !(lo <= x < hi))
  }

  // Only block m starts inside its own extent.
  lemma OnlyBlockAt(p: seq<Block>, start: nat, end: nat, m: nat, x: Addr, c: int)
    requires Tiled(p, start, end) && m < |p| && p[m].addr <= x < p[m].End()
    ensures HasFree(p, x, c) <==> p[m].free && x == p[m].addr && c == ClassOf(p[m].size)
  {
    if HasFree(p, x, c) {
      var o :| 0 <= o < |p| && p[o].free && p[o].addr == x && ClassOf(p[o].size) == c;
      if o < m {
        InOrder(p, start, end, o, m);
      } else if m < o {
        InOrder(p, start, end, m, o);
      }
    }
  }

  lemma SaneClass(p: seq<Block>, start: nat, end: nat, m: nat)
    requires Tiled(p, start, end) && m < |p|
    ensures p[m].Sane() && p[m].End() == AddrAt(p, end, m + 1) && ClassOf(p[m].size) < CLASSES
  {
    assert Cell(p, end, m);
    ClassInRange(p[m].size);
  }

  // Taking free block m off its list leaves its extent out.
  lemma ExtractedOutside(lists: seq<seq<Addr>>, p: seq<Block>, start: nat, end: nat, lo: nat, hi: nat, m: nat, k: nat)
    requires Tiled(p, start, end) && ListsMatchOutside(lists, p, lo, hi) && FreeAt(p, m)
    requires lo == hi || (lo < hi && (p[m].End() == lo || hi == p[m].addr))
    requires var c := ClassOf(p[m].size);
             c < CLASSES && Distinct(lists[c]) && k < |lists[c]| && lists[c][k] == p[m].addr
    ensures var c := ClassOf(p[m].size); var lists' := lists[c := Without(lists[c], k)];
            if lo == hi then ListsMatchOutside(lists', p, p[m].addr, p[m].End())
            else if p[m].End() == lo then ListsMatchOutside(lists', p, p[m].addr, hi)
            else ListsMatchOutside(lists', p, lo, p[m].End())
  {
    var c := ClassOf(p[m].size);
    var s := Without(lists[c], k);
    var lists' := lists[c := s];
    forall d, x: Addr | 0 <= d < CLASSES
      ensures x in lists'[d] <==> HasFree(p, x, d) && !(lo <= x < hi) && !(p[m].addr <= x < p[m].End())
    {
      WithoutMembers(lists[c], k, x);
      if p[m].addr <= x < p[m].End() {
        OnlyBlockAt(p, start, end, m, x, d);
      }
    }
  }

  lemma WithoutMembers(s: seq<Addr>, k: nat, x: Addr)
    requires k < |s| && Distinct(s)
    ensures x in Without(s, k) <==> x in s && x != s[k]
  {
  }

  // Putting the one free block of the new stretch on its list restores the match.
  lemma InsertedMatch(lists: seq<seq<Addr>>, p: seq<Block>, start: nat, end: nat, i: nat, j: nat, mid: seq<Block>,
                      m: nat)
    requires Tiled(p, start, end) && i < j <= |p| && ListsMatchOutside(lists, p, p[i].addr, AddrAt(p, end, j))
    requires FreeAt(mid, m) && (forall n :: 0 <= n < |mid| && n != m ==> !mid[n].free) && ClassOf(mid[m].size) < CLASSES
    ensures var c := ClassOf(mid[m].size);
            ListsMatch(lists[c := [mid[m].addr] + lists[c]], Replace(p, i, j, mid))
  {
    var c := ClassOf(mid[m].size);
    var lists' := lists[c := [mid[m].addr] + lists[c]];
    forall d, x: Addr | 0 <= d < CLASSES
      ensures x in lists'[d] <==> HasFree(Replace(p, i, j, mid), x, d)
    {
      HasFreeReplaced(p, start, end, i, j, mid, x, d);
      assert HasFree(mid, x, d) <==> x == mid[m].addr && d == c;
    }
  }

  lemma NothingInserted(lists: seq<seq<Addr>>, p: seq<Block>, start: nat, end: nat, i: nat, j: nat, mid: seq<Block>)
    requires Tiled(p, start, end) && i < j <= |p| && ListsMatchOutside(lists, p, p[i].addr, AddrAt(p, end, j))
    requires forall n :: 0 <= n < |mid| ==> !mid[n].free
    ensures ListsMatch(lists, Replace(p, i, j, mid))
  {
    forall d, x: Addr | 0 <= d < CLASSES
      ensures x in lists[d] <==> HasFree(Replace(p, i, j, mid), x, d)
    {
      HasFreeReplaced(p, start, end, i, j, mid, x, d);
    }
  }

  // ----- which classes can serve a request

  /** The first class whose blocks are large enough for a rounded request of r bytes. */
  ghost function TargetClass(r: nat): nat {
    if r < SMALL_BLOCK then r / 4 else SearchClass(r)
  }

  lemma FitsByClass(r: nat, size: nat)
    requires r % 4 == 0
    ensures size >= SearchSize(r) <==> ClassOf(size) >= TargetClass(r)
  {
    ClassVersusFloor(size, TargetClass(r));
  }

  /** The search stays inside the 23 rows of lists exactly for requests up to 0x3F000000 bytes. */
  lemma RequestInRange(n: nat)
    ensures SearchClass(Rounded(n)) < CLASSES <==> n <= LARGEST_REQUEST
  {
    PowerTable();
    FloorAt(29, 63);
    if Rounded(n) >= SMALL_BLOCK {
      SearchClassIsFirst(Rounded(n), CLASSES - 1);
    }
  }

  /** A block in use belongs to ptr; it has at least n bytes and at most r + r / 32 + 12, r being the least size. */
  ghost predicate Holds(p: seq<Block>, ptr: Addr, n: nat) {
    exists i :: 0 <= i < |p| && p[i].addr + 8 == ptr && !p[i].free && n <= p[i].size
                && forall r: nat :: LeastSize(n, r) ==> r <= p[i].size <= r + r / 32 + 12
  }

  class Tlsf {
    const control: FreeListTable
    var hdr: map<Addr, Header>
    ghost var start: nat  // header of the first block
    ghost var end: nat  // header of the sentinel
    ghost var blocks: seq<Block>

    /** Headers, lists and bitmaps all describe the row of blocks, which tiles the pool. */
    ghost predicate Valid()
      reads this, control
    {
      && control.Valid()
      && Tiled(blocks, start, end)
      && end - start <= MAX_BLOCK
      && HeadersMatch(hdr, blocks, end)
      && ListsMatch(control.lists, blocks)
    }

    constructor ()
      ensures fresh(control)
    {
      control := new FreeListTable();
      hdr := map[];
    }

    // ----- init_memory_pool

    /**
     Lays out the pool as one free block, or reports an unusable pool. Pools of 128 to 135 bytes
     beyond the control structure pass the size check but are too small (FirstBlockIndex), so
     they are excluded here.
     */
    method InitMemoryPool(memPoolSize: nat, memPool: Addr) returns (r: int)
      requires memPoolSize < 0x1_0000_0000 && !(SIZEOF_TLSF + 128 <= memPoolSize < SIZEOF_TLSF + 136)
      modifies this, control
      ensures r == -1 <==> memPool == NULL || memPoolSize < SIZEOF_TLSF + 128 || memPool % 4 != 0
                           || FirstBlockSize(memPoolSize) >= MAX_BLOCK
      ensures r != -1 ==> r == FirstBlockSize(memPoolSize)
      ensures r != -1 ==> r % 4 == 0 && SIZEOF_TLSF + 8 + r <= memPoolSize < SIZEOF_TLSF + 8 + r + 4
      ensures r != -1 ==> Valid() && start == memPool + SIZEOF_TLSF - 4 && end == start + r + BHDR_OVERHEAD
      ensures r != -1 ==> blocks == [Block(start, r, true)]
    {
      if memPool == NULL || memPoolSize == 0 || memPoolSize < SIZEOF_TLSF + 128 {
        return -1;
      }
      if memPool % 4 != 0 {
        return -1;
      }
      control.Clear();
      var b, size := memPool + SIZEOF_TLSF - 4, FirstBlockSize(memPoolSize);
      hdr := map[b := Header(NULL, size, true, false)];
      if size + 1 > MAX_BLOCK {
        return -1;
      }
      LayOut(b, size);
      return size;
    }

    /** The first block goes on its list and the sentinel behind it. */
    method LayOut(b: Addr, size: nat)
      requires b > 0 && SMALL_BLOCK <= size < MAX_BLOCK && size % 4 == 0
      requires hdr == map[b := Header(NULL, size, true, false)]
      requires control.Valid() && |control.lists| == CLASSES && forall c :: 0 <= c < CLASSES ==> control.lists[c] == []
      modifies this, control
      ensures Valid() && start == b && end == b + size + BHDR_OVERHEAD && blocks == [Block(b, size, true)]
    {
      hide ClassOf, Log2, BitmapsMatch, Family, ListsMatch, Members;
      FlagBitHarmless(size);
      var fl, sl := MappingInsert(size + 1);
      control.Insert(b, fl, sl);
      var lb := b + size + BHDR_OVERHEAD;
      hdr := hdr[lb := Header(b, 0, false, true)];
      start, end, blocks := b, lb, [Block(b, size, true)];
      assert Cell(blocks, end, 0);
      assert HeaderOk(hdr, blocks, end, 0) && HeaderOk(hdr, blocks, end, 1);
      FreshLists(old(control.lists), b, size);
    }

    /** A pool that is one free block has one list, with one element, and exactly the bits of its class. */
    lemma OneBlockBits()
      requires Valid() && |blocks| == 1 && blocks[0].free
      ensures var c := ClassOf(blocks[0].size);
              && c < CLASSES
              && control.lists[c] == [blocks[0].addr]
              && (forall d :: 0 <= d < CLASSES && d != c ==> control.lists[d] == [])
              && Members(control.sbBitmap) == (if c < 32 then {c} else {})
              && Members(control.flBitmap) == (if c < 32 then {} else {(c - 32) / 32})
              && forall f :: 0 <= f < REAL_FLI ==>
                   Members(control.slBitmap[f]) == if c >= 32 && f == (c - 32) / 32 then {c % 32} else {}
    {
      hide ClassOf, Members;
      SaneClass(blocks, start, end, 0);
      var c := ClassOf(blocks[0].size);
      assert HasFree(blocks, blocks[0].addr, c);
      forall d | 0 <= d < CLASSES
        ensures control.lists[d] == if d == c then [blocks[0].addr] else []
      {
        HeadDistinct(control.link, control.sbArray + control.matrix, control.lists, d);
        SingleElement(control.lists[d], blocks[0].addr);
      }
      OnlyBits(control.lists, control.sbBitmap, control.flBitmap, control.slBitmap, c);
    }

    /** The size-dependent choice between INSERT_SMALL_BLOCK and MAPPING_INSERT with INSERT_BLOCK. */
    method PutOnList(b: Addr, size: nat)
      requires control.Valid() && b != NULL && !Listed(control.lists, b) && size < MAX_BLOCK
      modifies control
      ensures control.Valid()
      ensures ClassOf(size) < CLASSES
      ensures var c := ClassOf(size); control.lists == old(control.lists)[c := [b] + old(control.lists)[c]]
    {
      ClassInRange(size);
      if size < SMALL_BLOCK {
        control.InsertSmall(b, size / 4);
      } else {
        var fl, sl := MappingInsert(size);
        control.Insert(b, fl, sl);
      }
    }

    /** The choice between EXTRACT_SMALL_BLOCK and MAPPING_INSERT with EXTRACT_BLOCK. */
    method TakeOffList(b: Addr, size: nat, ghost k: nat)
      requires control.Valid() && size < MAX_BLOCK
      requires var c := ClassOf(size); c < CLASSES && k < |control.lists[c]| && control.lists[c][k] == b
      modifies control
      ensures control.Valid()
      ensures var c := ClassOf(size); control.lists == old(control.lists)[c := Without(old(control.lists)[c], k)]
    {
      if size < SMALL_BLOCK {
        control.ExtractSmall(b, size / 4, k);
      } else {
        var fl, sl := MappingInsert(size);
        control.Extract(b, fl, sl, k);
      }
    }

    // ----- malloc_ex

    /** The first half of malloc_ex: the first block of the lowest occupied list that can serve the request. */
    method FindAndExtract(request: nat) returns (b: Addr, size: nat, ghost c: nat)
      requires control.Valid() && MIN_BLOCK_SIZE <= request && request % 4 == 0 && SearchClass(request) < CLASSES
      requires request < 0x8000_0000
      modifies control
      ensures control.Valid() && size == SearchSize(request)
      ensures b == NULL ==> control.lists == old(control.lists)
      ensures b == NULL ==> forall d :: TargetClass(request) <= d < CLASSES ==> old(control.lists)[d] == []
      ensures b != NULL ==>
                TargetClass(request) <= c < CLASSES && old(control.lists)[c] != [] && old(control.lists)[c][0] == b
      ensures b != NULL ==> control.lists == old(control.lists)[c := old(control.lists)[c][1..]]
      ensures b != NULL ==> forall d :: TargetClass(request) <= d < c ==> old(control.lists)[d] == []
    {
      hide ClassOf, Floor, Log2;
      size, c := request, 0;
      var fl, sl;
      b, fl := control.FindSmallSuitable(size);
      if b != NULL {
        control.ExtractSmallHead(b, fl);
        c := fl;
        return;
      }
      if size < 32 {
        fl, sl := 0, 0;
      } else {
        size, fl, sl := MappingSearch(size);
      }
      b, fl, sl := control.FindSuitable(fl, sl);
      if b == NULL {
        return;
      }
      control.ExtractHead(b, fl, sl);
      c := 32 + 32 * fl + sl;
    }

    /** The cut: the rest becomes a free block between b and its successor. */
    method Split(b: Addr, next: Addr, size: nat, rest: nat, ghost k: nat)
      requires control.Valid() && Tiled(blocks, start, end) && FreeAt(blocks, k) && b == blocks[k].addr > 0
      requires next == blocks[k].End() == AddrAt(blocks, end, k + 1) && b in hdr && next in hdr
      requires MIN_BLOCK_SIZE <= size
      requires MIN_BLOCK_SIZE <= rest == blocks[k].size - size - BHDR_OVERHEAD < MAX_BLOCK
      requires ListsMatchOutside(control.lists, blocks, b, next)
      modifies `hdr, control
      ensures control.Valid()
      ensures ListsMatch(control.lists, Replace(blocks, k, k + 1, Carve(blocks[k], size)))
      ensures var b2 := b + size + BHDR_OVERHEAD;
              && hdr.Keys == old(hdr).Keys + {b2}
              && hdr[b] == old(hdr)[b].(size := size)
              && hdr[b2].size == rest && hdr[b2].free && !hdr[b2].prevFree
              && hdr[next] == old(hdr)[next].(prevHdr := b2)
              && (forall x :: x in old(hdr) && x != b && x != b2 && x != next ==> hdr[x] == old(hdr)[x])
    {
      hide ClassOf, HasFree, Family, BitmapsMatch, Replace, ListsMatchOutside, ListsMatch, Listed;
      ghost var p, mid := blocks, Carve(blocks[k], size);
      var b2 := b + size + BHDR_OVERHEAD;
      hdr := hdr[b2 := Header(if b2 in hdr then hdr[b2].prevHdr else NULL, rest, true, false)];
      hdr := hdr[next := hdr[next].(prevHdr := b2)];
      ClassInRange(rest);
      NotListedInside(control.lists, p, b, next, b2);
      assert mid[1] == Block(b2, rest, true);
      InsertedMatch(control.lists, p, start, end, k, k + 1, mid, 1);
      PutOnList(b2, rest);
      hdr := hdr[b := hdr[b].(size := size)];
    }

    /** The second half: block k, off its list, is cut if it is large enough and marked used. */
    method Occupy(b: Addr, size: nat, ghost k: nat)
      requires control.Valid() && Tiled(blocks, start, end) && end - start <= MAX_BLOCK
      requires HeadersMatch(hdr, blocks, end)
      requires FreeAt(blocks, k) && b == blocks[k].addr
      requires MIN_BLOCK_SIZE <= size <= blocks[k].size && size % 4 == 0
      requires ListsMatchOutside(control.lists, blocks, b, blocks[k].End())
      modifies this, control
      ensures Valid() && start == old(start) && end == old(end)
      ensures blocks == Replace(old(blocks), k, k + 1, Carve(old(blocks)[k], size))
    {
      hide ClassOf, HasFree, Family, BitmapsMatch, Replace, ListsMatchOutside, ListsMatch, Listed;
      ghost var p, mid := blocks, Carve(blocks[k], size);
      OccupyTiled(p, start, end, k, size);
      assert HeaderOk(hdr, p, end, k) && HeaderOk(hdr, p, end, k + 1);
      SaneClass(p, start, end, k);
      AddressesDiffer(p, start, end, k, k);
      hide Tiled, HeadersMatch;
      var next := b + hdr[b].size + BHDR_OVERHEAD;
      var rest := hdr[b].size - size - BHDR_OVERHEAD;
      if rest >= MIN_BLOCK_SIZE {
        Split(b, next, size, rest, k);
      } else {
        NothingInserted(control.lists, p, start, end, k, k + 1, mid);
        hdr := hdr[next := hdr[next].(prevFree := false)];
      }
      hdr := hdr[b := hdr[b].(free := false)];
      blocks := Replace(p, k, k + 1, mid);
      OccupyHeaders(old(hdr), hdr, p, start, end, k, size);
    }

    /** malloc_ex */
    method Malloc(request: nat) returns (ptr: Addr)
      requires Valid() && request <= LARGEST_REQUEST
      modifies this, control
      ensures Valid() && start == old(start) && end == old(end)
      ensures Allocates(old(blocks), request, blocks, ptr)
      ensures ptr == NULL <==>
                forall i :: 0 <= i < |old(blocks)| && old(blocks)[i].free ==> old(blocks)[i].size < Needed(request)
      ensures forall r: nat :: LeastSize(request, r) ==>
                (ptr == NULL <==>
                   forall i :: 0 <= i < |old(blocks)| && old(blocks)[i].free ==> old(blocks)[i].size < SearchSize(r))
      ensures ptr != NULL ==> Holds(blocks, ptr, request)
    {
      hide ClassOf, SearchSize, SearchClass, TargetClass, HasFree, Family, BitmapsMatch, HeadersMatch, Replace, Carve;
      var size := Rounded(request);
      RequestInRange(request);
      var b;
      ghost var c;
      ghost var r, lists := size, control.lists;
      b, size, c := FindAndExtract(size);
      if b == NULL {
        NothingFits(blocks, start, end, request, lists);
        FailsIffNothingFits(blocks, request, blocks, NULL);
        RoundedIsLeast(request);
        return NULL;
      }
      ghost var k := FoundBlock(blocks, start, end, request, lists, c);
      NeededBounds(request);
      HeadDistinct(old(control.link), old(control.sbArray) + old(control.matrix), lists, c);
      NothingOutside(lists, blocks, b);
      ExtractedOutside(lists, blocks, start, end, b, b, k, 0);
      assert Without(lists[c], 0) == lists[c][1..];
      hide ListsMatchOutside, ListsMatch;
      Occupy(b, size, k);
      assert AllocatesAt(old(blocks), request, blocks, k);
      ptr := b + BUFFER;
      FailsIffNothingFits(old(blocks), request, blocks, ptr);
      RoundedIsLeast(request);
      Granted(old(blocks), start, end, request, blocks, k);
    }

    // ----- free_ex

    /** Takes free block m, a neighbour of the stretch lo..hi, off its list. */
    method Absorb(b: Addr, size: nat, ghost m: nat, ghost lo: nat, ghost hi: nat)
      requires control.Valid() && Tiled(blocks, start, end)
      requires FreeAt(blocks, m) && b == blocks[m].addr && size == blocks[m].size
      requires lo < hi && (blocks[m].End() == lo || hi == b)
      requires ListsMatchOutside(control.lists, blocks, lo, hi)
      modifies control
      ensures control.Valid()
      ensures if blocks[m].End() == lo then ListsMatchOutside(control.lists, blocks, b, hi)
              else ListsMatchOutside(control.lists, blocks, lo, blocks[m].End())
    {
      SaneClass(blocks, start, end, m);
      ghost var c := ClassOf(size);
      assert HasFree(blocks, b, c);
      HeadDistinct(control.link, control.sbArray + control.matrix, control.lists, c);
      ghost var k :| 0 <= k < |control.lists[c]| && control.lists[c][k] == b;
      ExtractedOutside(control.lists, blocks, start, end, lo, hi, m, k);
      TakeOffList(b, size, k);
    }

    /** Merges block k with its successor, if that is free. */
    method MergeNext(b: Addr, ghost k: nat, ghost h: map<Addr, Header>)
      requires control.Valid() && Tiled(blocks, start, end) && HeadersMatch(h, blocks, end)
      requires k < |blocks| && !blocks[k].free && b == blocks[k].addr
      requires b in h && hdr == h[b := h[b].(free := true)]
      requires ListsMatchOutside(control.lists, blocks, b, blocks[k].End())
      modifies `hdr, control
      ensures control.Valid()
      ensures var next := AddrAt(blocks, end, MergeTo(blocks, k));
              && b + BHDR_OVERHEAD <= next
              && hdr == h[b := h[b].(free := true, size := next - BHDR_OVERHEAD - b)]
              && ListsMatchOutside(control.lists, blocks, b, next)
    {
      hide ClassOf, HasFree, Family, BitmapsMatch, ListsMatchOutside;
      NeighbourHeaders(h, blocks, start, end, k);
      hide Tiled, HeadersMatch;
      var next := b + hdr[b].size + BHDR_OVERHEAD;
      if hdr[next].free {
        Absorb(next, hdr[next].size, k + 1, b, blocks[k].End());
        hdr := hdr[b := hdr[b].(size := hdr[b].size + hdr[next].size + BHDR_OVERHEAD)];
      }
    }

    /** Merges it with its predecessor, if that is free, and returns the header of the merged block. */
    method MergePrevious(b: Addr, ghost k: nat, ghost h: map<Addr, Header>, ghost next: nat) returns (m: Addr)
      requires control.Valid() && Tiled(blocks, start, end) && HeadersMatch(h, blocks, end)
      requires k < |blocks| && !blocks[k].free && b == blocks[k].addr
      requires b in h && b + BHDR_OVERHEAD <= next
      requires hdr == h[b := h[b].(free := true, size := next - BHDR_OVERHEAD - b)]
      requires ListsMatchOutside(control.lists, blocks, b, next)
      modifies `hdr, control
      ensures control.Valid()
      ensures m == blocks[MergeFrom(blocks, k)].addr <= b && m in h && hdr.Keys == h.Keys
      ensures hdr[m] == h[m].(free := true, size := next - BHDR_OVERHEAD - m)
      ensures forall x :: x in h && !(m <= x < next) ==> hdr[x] == h[x]
      ensures ListsMatchOutside(control.lists, blocks, m, next)
    {
      hide ClassOf, HasFree, Family, BitmapsMatch, ListsMatchOutside;
      NeighbourHeaders(h, blocks, start, end, k);
      m := b;
      if hdr[b].prevFree {
        m := hdr[b].prevHdr;
        assert HeaderOk(h, blocks, end, k - 1);
        hide Tiled, HeadersMatch;
        Absorb(m, hdr[m].size, k - 1, b, next);
        hdr := hdr[m := hdr[m].(size := hdr[m].size + hdr[b].size + BHDR_OVERHEAD)];
      }
    }

    /** Puts the merged block on its list and tells its successor. */
    method Settle(b: Addr, ghost k: nat, ghost h: map<Addr, Header>)
      requires control.Valid() && Tiled(blocks, start, end) && end - start <= MAX_BLOCK && HeadersMatch(h, blocks, end)
      requires k < |blocks| && !blocks[k].free
      requires var next := AddrAt(blocks, end, MergeTo(blocks, k));
               && b == blocks[MergeFrom(blocks, k)].addr
               && b + BHDR_OVERHEAD <= next && b in h && hdr.Keys == h.Keys
               && hdr[b] == h[b].(free := true, size := next - BHDR_OVERHEAD - b)
               && (forall x :: x in h && !(b <= x < next) ==> hdr[x] == h[x])
               && ListsMatchOutside(control.lists, blocks, b, next)
      modifies this, control
      ensures Valid() && start == old(start) && end == old(end)
      ensures ReleasesAt(old(blocks), blocks, k)
    {
      hide ClassOf, HasFree, Family, BitmapsMatch, Replace, ListsMatchOutside, ListsMatch, Listed;
      ghost var p, i, j := blocks, MergeFrom(blocks, k), MergeTo(blocks, k);
      MergedCell(p, start, end, k);
      ghost var m := Merged(p, i, j);
      Released(p, start, end, Replace(p, i, j, [m]), k);
      assert HeaderOk(h, p, end, j);
      hide Tiled, HeadersMatch, MergeFrom, MergeTo;
      ClassInRange(m.size);
      NotListedInside(control.lists, p, b, AddrAt(p, end, j), b);
      InsertedMatch(control.lists, p, start, end, i, j, [m], 0);
      PutOnList(b, hdr[b].size);
      var next := b + hdr[b].size + BHDR_OVERHEAD;
      hdr := hdr[next := hdr[next].(prevFree := true, prevHdr := b)];
      blocks := Replace(p, i, j, [m]);
      ReleaseHeaders(h, hdr, p, start, end, k);
    }

    /** free_ex; k is the block that ptr belongs to. */
    method Release(ptr: Addr, ghost k: nat)
      requires Valid() && k < |blocks| && !blocks[k].free && ptr == blocks[k].addr + BUFFER
      modifies this, control
      ensures Valid() && start == old(start) && end == old(end)
      ensures ReleasesAt(old(blocks), blocks, k)
    {
      hide ClassOf, HasFree, Family, BitmapsMatch, Replace, ListsMatchOutside, Listed;
      UsedOutside(control.lists, blocks, start, end, k);
      assert HeaderOk(hdr, blocks, end, k);
      hide Tiled, HeadersMatch, MergeFrom, MergeTo, ListsMatch;
      ghost var h := hdr;
      var b := ptr - BUFFER;
      hdr := hdr[b := hdr[b].(free := true)];
      NotListedInside(control.lists, blocks, b, blocks[k].End(), b);
      control.ClearLink(b);
      MergeNext(b, k, h);
      b := MergePrevious(b, k, h, AddrAt(blocks, end, MergeTo(blocks, k)));
      Settle(b, k, h);
    }

    /** free_ex */
    method Free(ptr: Addr)
      requires Valid() && ptr in Live(blocks)
      modifies this, control
      ensures Valid() && start == old(start) && end == old(end)
      ensures Releases(old(blocks), blocks, ptr)
    {
      ghost var k :| 0 <= k < |blocks| && !blocks[k].free && ptr == blocks[k].addr + BUFFER;
      Release(ptr, k);
    }
  }

  // A used block has nothing on the lists.
  lemma UsedOutside(lists: seq<seq<Addr>>, p: seq<Block>, start: nat, end: nat, k: nat)
    requires Tiled(p, start, end) && ListsMatch(lists, p) && k < |p| && !p[k].free
    ensures ListsMatchOutside(lists, p, p[k].addr, p[k].End())
  {
    forall c, x: Addr | 0 <= c < CLASSES
      ensures x in lists[c] <==> HasFree(p, x, c) && !(p[k].addr <= x < p[k].End())
    {
      if p[k].addr <= x < p[k].End() {
        OnlyBlockAt(p, start, end, k, x, c);
      }
    }
  }

  // What the boundary tags of block k say about its neighbours.
  lemma NeighbourHeaders(h: map<Addr, Header>, p: seq<Block>, start: nat, end: nat, k: nat)
    requires Tiled(p, start, end) && HeadersMatch(h, p, end) && k < |p| && !p[k].free
    ensures p[k].addr in h && h[p[k].addr].size == p[k].size && h[p[k].addr].prevFree == FreeAt(p, k - 1)
    ensures p[k].End() == AddrAt(p, end, k + 1) && p[k].End() in h && h[p[k].End()].free == FreeAt(p, k + 1)
    ensures FreeAt(p, k + 1) ==> p[k + 1].addr == p[k].End() && h[p[k].End()].size == p[k + 1].size
    ensures FreeAt(p, k + 1) ==> p[k + 1].End() == AddrAt(p, end, k + 2) && p[k + 1].End() in h
    ensures FreeAt(p, k - 1) ==> var a := h[p[k].addr].prevHdr;
                                 && a in h && a == p[k - 1].addr < p[k].addr && h[a].size == p[k - 1].size
                                 && p[k - 1].End() == p[k].addr
  {
    assert Cell(p, end, k) && HeaderOk(h, p, end, k) && HeaderOk(h, p, end, k + 1);
    if FreeAt(p, k + 1) {
      assert Cell(p, end, k + 1) && HeaderOk(h, p, end, k + 2);
    }
    if FreeAt(p, k - 1) {
      assert Cell(p, end, k - 1) && HeaderOk(h, p, end, k - 1);
    }
  }

  /** The headers written by free_ex describe the new row. */
  lemma ReleaseHeaders(h: map<Addr, Header>, h': map<Addr, Header>, p: seq<Block>, start: nat, end: nat, k: nat)
    requires Tiled(p, start, end) && HeadersMatch(h, p, end) && end - start <= MAX_BLOCK && k < |p| && !p[k].free
    requires var i, j := MergeFrom(p, k), MergeTo(p, k);
             && p[i].addr + BHDR_OVERHEAD <= p[j - 1].End()
             && var m := Merged(p, i, j);
                var next := AddrAt(p, end, j);
                && h'.Keys == h.Keys && m.addr in h && next in h
                && h'[m.addr] == h[m.addr].(size := m.size, free := true)
                && h'[next] == h[next].(prevFree := true, prevHdr := m.addr)
                && (forall x :: x in h && !(m.addr <= x <= next) ==> h'[x] == h[x])
    ensures var i, j := MergeFrom(p, k), MergeTo(p, k);
            HeadersMatch(h', Replace(p, i, j, [Merged(p, i, j)]), end)
  {
    var i: int, j := MergeFrom(p, k), MergeTo(p, k);
    var m := Merged(p, i, j);
    var q := Replace(p, i, j, [m]);
    MergedCell(p, start, end, k);
    InOrder(p, start, end, i, j);
    assert HeaderOk(h, p, end, i) && HeaderOk(h, p, end, j);
    assert AddrAt(q, end, i + 1) == AddrAt(p, end, j);
    assert FreeAt(q, i + 1) == FreeAt(p, j) && FreeAt(q, i - 1) == FreeAt(p, i - 1);
    assert HeaderOk(h', q, end, i);
    assert HeaderOk(h', q, end, i + 1);
    HeadersReplaced(h, h', p, start, end, i, j, [m]);
  }

  lemma NothingOutside(lists: seq<seq<Addr>>, p: seq<Block>, lo: nat)
    requires ListsMatch(lists, p)
    ensures ListsMatchOutside(lists, p, lo, lo)
  {
  }

  lemma NotListedInside(lists: seq<seq<Addr>>, p: seq<Block>, lo: nat, hi: nat, x: Addr)
    requires ListsMatchOutside(lists, p, lo, hi) && lo <= x < hi
    ensures !Listed(lists, x)
  {
  }

  lemma OccupyTiled(p: seq<Block>, start: nat, end: nat, k: nat, size: nat)
    requires Tiled(p, start, end) && FreeAt(p, k) && MIN_BLOCK_SIZE <= size <= p[k].size && size % 4 == 0
    ensures Tiled(Replace(p, k, k + 1, Carve(p[k], size)), start, end)
    ensures !FreeAt(p, k - 1) && !FreeAt(p, k + 1)
  {
    var mid := Carve(p[k], size);
    assert Cell(p, end, k);
    AddressesDiffer(p, start, end, k, k);
    CarveTiled(p[k], AddrAt(p, end, k + 1), size);
    assert k > 0 ==> Cell(p, end, k - 1);
    ReplaceTiled(p, start, end, k, k + 1, mid);
  }

  /** The headers written by malloc_ex describe the new row. */
  lemma OccupyHeaders(h: map<Addr, Header>, h': map<Addr, Header>, p: seq<Block>, start: nat, end: nat, k: nat,
                      size: nat)
    requires Tiled(p, start, end) && HeadersMatch(h, p, end) && FreeAt(p, k)
    requires MIN_BLOCK_SIZE <= size <= p[k].size && size % 4 == 0
    requires p[k].addr in h && AddrAt(p, end, k + 1) in h
    requires var b, next, rest := p[k].addr, AddrAt(p, end, k + 1), p[k].size - size - BHDR_OVERHEAD;
             var b2 := b + size + BHDR_OVERHEAD;
             if rest >= MIN_BLOCK_SIZE then
               && h'.Keys == h.Keys + {b2}
               && h'[b] == h[b].(size := size, free := false)
               && h'[b2].size == rest && h'[b2].free && !h'[b2].prevFree
               && h'[next] == h[next].(prevHdr := b2)
               && (forall x :: x in h && x != b && x != b2 && x != next ==> h'[x] == h[x])
             else
               && h'.Keys == h.Keys
               && h'[b] == h[b].(free := false)
               && h'[next] == h[next].(prevFree := false)
               && (forall x :: x in h && x != b && x != next ==> h'[x] == h[x])
    ensures HeadersMatch(h', Replace(p, k, k + 1, Carve(p[k], size)), end)
  {
    var mid := Carve(p[k], size);
    var q := Replace(p, k, k + 1, mid);
    assert HeaderOk(h, p, end, k) && HeaderOk(h, p, end, k + 1);
    SaneClass(p, start, end, k);
    OccupyTiled(p, start, end, k, size);
    assert AddrAt(q, end, k + |mid|) == AddrAt(p, end, k + 1);
    assert FreeAt(q, k + |mid|) == FreeAt(p, k + 1) && FreeAt(q, k - 1) == FreeAt(p, k - 1);
    assert HeaderOk(h', q, end, k);
    assert HeaderOk(h', q, end, k + 1);
    assert HeaderOk(h', q, end, k + |mid|);
    HeadersReplaced(h, h', p, start, end, k, k + 1, mid);
  }

  lemma FreshLists(lists: seq<seq<Addr>>, b: Addr, size: nat)
    requires ClassOf(size) < CLASSES && |lists| == CLASSES && forall c :: 0 <= c < CLASSES ==> lists[c] == []
    ensures var c := ClassOf(size); ListsMatch(lists[c := [b] + lists[c]], [Block(b, size, true)])
  {
    hide ClassOf;
    var p := [Block(b, size, true)];
    forall c, x: Addr
      ensures HasFree(p, x, c) <==> x == b && c == ClassOf(size)
    {
      assert p[0].addr == b;
    }
  }

  lemma SingleElement(s: seq<Addr>, x: Addr)
    requires Distinct(s) && forall y :: y in s ==> y == x
    ensures s == [] || s == [x]
  {
    FirstTwoDiffer(s);
    forall i | 0 <= i < |s|
      ensures s[i] == x
    {
      assert s[i] in s;
    }
  }

  lemma FirstTwoDiffer(s: seq<Addr>)
    requires Distinct(s)
    ensures |s| > 1 ==> s[0] != s[1]
  {
  }

  /** The size of the first block of a pool. */
  function FirstBlockSize(memPoolSize: nat): nat
    requires memPoolSize >= SIZEOF_TLSF + 128
  {
    (memPoolSize - SIZEOF_TLSF - 2 * BHDR_OVERHEAD) / 4 * 4
  }

  /** MAPPING_INSERT is applied to the first block's size with its FREE bit set; the class is the same. */
  lemma FlagBitHarmless(size: nat)
    requires size >= SMALL_BLOCK && size % 4 == 0
    ensures ClassOf(size + 1) == ClassOf(size)
  {
    hide ClassOf, Floor;
    ClassVersusFloor(size + 1, ClassOf(size));
    ClassVersusFloor(size, ClassOf(size));
    ClassVersusFloor(size + 1, ClassOf(size + 1));
    FloorsAreWords(ClassOf(size + 1));
    ClassVersusFloor(size, ClassOf(size + 1));
  }

  /**
   Of the pools that pass init_memory_pool's size check, those below SIZEOF_TLSF + 136 bytes get a
   first block of less than 128 bytes, for which MAPPING_INSERT computes the row index -1.
   */
  lemma FirstBlockIndex(memPoolSize: nat)
    requires memPoolSize >= SIZEOF_TLSF + 128
    ensures FirstBlockSize(memPoolSize) + 1 > 0
    ensures Log2(FirstBlockSize(memPoolSize) + 1) - FLI_OFFSET >= 0 <==> memPoolSize >= SIZEOF_TLSF + 136
    ensures Log2(FirstBlockSize(SIZEOF_TLSF + 128) + 1) - FLI_OFFSET == -1
  {
    var size := FirstBlockSize(memPoolSize) + 1;
    assert Pow2(6) == 64;
    Log2Unique(121, 6);
    if memPoolSize >= SIZEOF_TLSF + 136 {
      LargeSize(size);
    } else {
      Log2Unique(size, 6);
    }
  }

  lemma HeadDistinct(m: Memory, heads: seq<Addr>, lists: seq<seq<Addr>>, c: nat)
    requires Family(m, heads, lists) && c < |lists|
    ensures Distinct(lists[c])
  {
  }

  // Empty lists from the target class on: no free block fits.
  lemma NothingFits(p: seq<Block>, start: nat, end: nat, n: nat, lists: seq<seq<Addr>>)
    requires Tiled(p, start, end) && ListsMatch(lists, p)
    requires forall d :: TargetClass(Rounded(n)) <= d < CLASSES ==> lists[d] == []
    ensures forall i :: !Fits(p, n, i)
  {
    hide ClassOf, SearchSize, TargetClass, Rounded;
    NeededBounds(n);
    forall i
      ensures !Fits(p, n, i)
    {
      if FreeAt(p, i) {
        SaneClass(p, start, end, i);
        FitsByClass(Rounded(n), p[i].size);
        assert HasFree(p, p[i].addr, ClassOf(p[i].size));
      }
    }
  }

  // The block at the front of the first occupied list: it fits and is of the lowest fitting class.
  lemma FoundBlock(p: seq<Block>, start: nat, end: nat, n: nat, lists: seq<seq<Addr>>, c: nat) returns (k: nat)
    requires Tiled(p, start, end) && ListsMatch(lists, p)
    requires TargetClass(Rounded(n)) <= c < CLASSES && lists[c] != []
    requires forall d :: TargetClass(Rounded(n)) <= d < c ==> lists[d] == []
    ensures Fits(p, n, k) && p[k].addr == lists[c][0] && ClassOf(p[k].size) == c
    ensures forall j :: Fits(p, n, j) ==> ClassOf(p[k].size) <= ClassOf(p[j].size)
  {
    hide ClassOf, SearchSize, TargetClass, Rounded;
    NeededBounds(n);
    var b := lists[c][0];
    assert b in lists[c];
    var i :| 0 <= i < |p| && p[i].free && p[i].addr == b && ClassOf(p[i].size) == c;
    k := i;
    FitsByClass(Rounded(n), p[k].size);
    forall j | Fits(p, n, j)
      ensures c <= ClassOf(p[j].size)
    {
      SaneClass(p, start, end, j);
      FitsByClass(Rounded(n), p[j].size);
      assert HasFree(p, p[j].addr, ClassOf(p[j].size));
    }
  }
}
