/**
 What the allocator does to memory, without its bookkeeping
 (server/core/libc/tlsf.c, malloc_ex and free_ex).

 A pool is the row of blocks between two fixed addresses. The header of a block
 at address a occupies a + 0 .. a + 7 and its buffer starts at a + 8; the next
 header starts at a + size + 4, so its first word overlaps the buffer's last.
 */
module Pool {
  import opened Arithmetic
  import opened Bits
  import opened Links
  import opened SizeClasses

  const BUFFER := 8  // offset of the buffer from the header

  datatype Block = Block(addr: Addr, size: nat, free: bool) {
    /** Where the next header starts. */
    function End(): nat {
      addr + size + BHDR_OVERHEAD
    }

    /** The bytes handed out to the user. */
    ghost predicate Covers(x: int) {
      addr + BUFFER <= x < addr + BUFFER + size
    }

    ghost predicate Sane() {
      MIN_BLOCK_SIZE <= size < MAX_BLOCK && size % 4 == 0
    }
  }

  /** The address of header i; the one behind the last block is the sentinel's. */
  ghost function AddrAt(p: seq<Block>, end: nat, i: nat): nat {
    if i < |p| then p[i].addr else end
  }

  ghost predicate FreeAt(p: seq<Block>, i: int) {
    0 <= i < |p| && p[i].free
  }

  /** Block i reaches exactly to its successor, and not both are free. */
  ghost predicate Cell(p: seq<Block>, end: nat, i: nat)
    requires i < |p|
  {
    p[i].Sane() && p[i].End() == AddrAt(p, end, i + 1) && !(p[i].free && FreeAt(p, i + 1))
  }

  /** The blocks tile start..end and no two neighbours are free. */
  ghost predicate Tiled(p: seq<Block>, start: nat, end: nat) {
    && |p| > 0
    && p[0].addr == start > 0
    && forall i :: 0 <= i < |p| ==> Cell(p, end, i)
  }

  /** The blocks i..j replaced by others. */
  function Replace(p: seq<Block>, i: nat, j: nat, mid: seq<Block>): seq<Block>
    requires i <= j <= |p|
  {
    p[..i] + mid + p[j..]
  }

  lemma ReplaceTiled(p: seq<Block>, start: nat, end: nat, i: nat, j: nat, mid: seq<Block>)
    requires Tiled(p, start, end) && i < j <= |p|
    requires Tiled(mid, p[i].addr, AddrAt(p, end, j))
    requires !(FreeAt(p, i - 1) && mid[0].free) && !(mid[|mid| - 1].free && FreeAt(p, j))
    ensures Tiled(Replace(p, i, j, mid), start, end)
  {
    var q := Replace(p, i, j, mid);
    forall k | 0 <= k < |q|
      ensures Cell(q, end, k)
    {
      if k < i {
        assert Cell(p, end, k);
      } else if k < i + |mid| {
        assert Cell(mid, AddrAt(p, end, j), k - i);
      } else {
        assert Cell(p, end, k - i - |mid| + j);
      }
    }
  }

  lemma {:induction false} InOrder(p: seq<Block>, start: nat, end: nat, i: nat, j: nat)
    requires Tiled(p, start, end) && i < j <= |p|
    ensures p[i].End() <= AddrAt(p, end, j)
    decreases j - i
  {
    assert Cell(p, end, i);
    if i + 1 < j {
      InOrder(p, start, end, i + 1, j);
    }
  }

  lemma AddressesDiffer(p: seq<Block>, start: nat, end: nat, i: nat, j: nat)
    requires Tiled(p, start, end) && i < |p| && j < |p|
    ensures p[i].addr == p[j].addr <==> i == j
    ensures start <= p[i].addr < end
  {
    if i < j {
      InOrder(p, start, end, i, j);
    } else if j < i {
      InOrder(p, start, end, j, i);
    }
    InOrder(p, start, end, i, |p|);
    if i > 0 {
      InOrder(p, start, end, 0, i);
    }
  }

  // ----- what a caller can see

  ghost predicate LiveBlock(p: seq<Block>, b: Block) {
    b in p && !b.free
  }

  /** Addresses of the buffers in use. */
  ghost function Live(p: seq<Block>): set<Addr> {
    set i | 0 <= i < |p| && !p[i].free :: p[i].addr + BUFFER
  }

  /** The buffers of two different blocks never share a byte. */
  lemma BuffersDisjoint(p: seq<Block>, start: nat, end: nat, b: Block, c: Block, x: int)
    requires Tiled(p, start, end) && b in p && c in p && b.Covers(x) && c.Covers(x)
    ensures b == c
  {
    var i :| 0 <= i < |p| && p[i] == b;
    var j :| 0 <= j < |p| && p[j] == c;
    if i < j {
      InOrder(p, start, end, i, j);
    } else if j < i {
      InOrder(p, start, end, j, i);
    }
  }

  ghost function Total(p: seq<Block>): nat {
    if p == [] then 0 else p[0].size + BHDR_OVERHEAD + Total(p[1..])
  }

  lemma {:induction false} TotalFrom(p: seq<Block>, start: nat, end: nat, i: nat)
    requires Tiled(p, start, end) && i <= |p|
    ensures AddrAt(p, end, i) + Total(p[i..]) == end
    decreases |p| - i
  {
    if i < |p| {
      assert Cell(p, end, i);
      assert p[i..][1..] == p[i + 1..];
      TotalFrom(p, start, end, i + 1);
    }
  }

  /** Nothing is lost: blocks and headers always add up to the whole pool. */
  lemma Conservation(p: seq<Block>, start: nat, end: nat)
    requires Tiled(p, start, end)
    ensures start + Total(p) == end
  {
    TotalFrom(p, start, end, 0);
    assert p[0..] == p;
  }

  lemma UsedIsLive(p: seq<Block>, i: nat)
    requires i < |p|
    ensures !p[i].free ==> p[i].addr + BUFFER in Live(p)
  {
  }

  /** A pool without blocks in use is one free block. */
  lemma FullyCoalesced(p: seq<Block>, start: nat, end: nat)
    requires Tiled(p, start, end) && Live(p) == {}
    ensures start + BHDR_OVERHEAD <= end
    ensures p == [Block(start, end - start - BHDR_OVERHEAD, true)]
  {
    assert Cell(p, end, 0);
    forall i | 0 <= i < |p|
      ensures p[i].free
    {
      UsedIsLive(p, i);
    }
  }

  // ----- malloc_ex

  /** The smallest block that is ever handed out for a request of n bytes. */
  function Rounded(n: nat): nat {
    if n < MIN_BLOCK_SIZE then MIN_BLOCK_SIZE else (n + 3) / 4 * 4
  }

  ghost predicate Admissible(n: nat, m: nat) {
    m >= n && m >= MIN_BLOCK_SIZE && m % 4 == 0
  }

  /** m is the least size a block for n bytes may have. */
  ghost predicate LeastSize(n: nat, m: nat) {
    Admissible(n, m) && forall m': nat :: Admissible(n, m') ==> m <= m'
  }

  /** A request is rounded up no further than it must be. */
  lemma RoundedIsLeast(n: nat)
    ensures forall m: nat :: LeastSize(n, m) <==> m == Rounded(n)
  {
    forall m: nat | Admissible(n, m)
      ensures Rounded(n) <= m
    {
    }
    assert Admissible(n, Rounded(n));
  }

  /** The number of bytes taken out of the block that is found. */
  ghost function Needed(n: nat): nat {
    SearchSize(Rounded(n))
  }

  /** Blocks of at least the needed size. */
  ghost predicate Fits(p: seq<Block>, n: nat, i: int) {
    FreeAt(p, i) && p[i].size >= Needed(n)
  }

  /** The found block, cut if the rest is large enough to be a block. */
  function Carve(b: Block, need: nat): seq<Block>
    requires need <= b.size
  {
    if b.size - need - BHDR_OVERHEAD >= MIN_BLOCK_SIZE then
      [Block(b.addr, need, false), Block(b.addr + need + BHDR_OVERHEAD, b.size - need - BHDR_OVERHEAD, true)]
    else
      [Block(b.addr, b.size, false)]
  }

  /** Block i is handed out: it fits, and no fitting block lies in a lower size class. */
  ghost predicate AllocatesAt(p: seq<Block>, n: nat, p': seq<Block>, i: nat) {
    && Fits(p, n, i)
    && (forall j :: Fits(p, n, j) ==> ClassOf(p[i].size) <= ClassOf(p[j].size))
    && p' == Replace(p, i, i + 1, Carve(p[i], Needed(n)))
  }

  /** malloc_ex as a step from pool p to pool p' returning address a. */
  ghost predicate Allocates(p: seq<Block>, n: nat, p': seq<Block>, a: Addr) {
    if a == NULL then p' == p && forall i :: !Fits(p, n, i)
    else exists i: nat :: AllocatesAt(p, n, p', i) && a == p[i].addr + BUFFER
  }

  /**
   From 128 bytes on the rounded request is rounded up once more, to the next multiple of the unit p of its size class,
   which is a 32nd of the power of two below it.
   */
  lemma NeededIsNextMultiple(n: nat, r: nat)
    requires LeastSize(n, r)
    ensures r < SMALL_BLOCK ==> Needed(n) == r
    ensures r >= SMALL_BLOCK ==>
              && Log2(r) >= 7
              && var p := Pow2(Log2(r) - 5); Needed(n) % p == 0 && r <= Needed(n) < r + p
  {
    hide LeastSize, Rounded, Floor, SearchClass, Pow2, Log2;
    RoundedIsLeast(n);
    if r >= SMALL_BLOCK {
      NextMultipleOfUnit(r);
    }
  }

  lemma NextMultipleOfUnit(r: nat)
    requires r >= SMALL_BLOCK
    ensures Log2(r) >= 7
    ensures var p := Pow2(Log2(r) - 5); SearchSize(r) % p == 0 && r <= SearchSize(r) < r + p
  {
    hide Pow2, Log2, SearchSize, SearchClass, ClassOf;
    LargeSize(r);
    var p := Pow2(Log2(r) - 5);
    SearchLands(r, r + p - 1);
    RoundDown(r + p - 1, p);
  }

  lemma RoundDown(x: nat, p: nat)
    requires p > 0
    ensures x - p < x - x % p <= x && (x - x % p) % p == 0
  {
    DivBounds(x, p);
    ModuloIs(x - x % p, p, x / p, 0);
  }

  lemma NeededBounds(n: nat)
    ensures n <= Rounded(n) <= Needed(n) <= Rounded(n) + Rounded(n) / 32
    ensures Rounded(n) % 4 == 0 && Needed(n) % 4 == 0 && Needed(n) >= MIN_BLOCK_SIZE
  {
    hide SearchSize;
    SearchSizeBounds(Rounded(n));
  }

  lemma CarveTiled(b: Block, end: nat, need: nat)
    requires b.Sane() && b.addr > 0 && end == b.End() && MIN_BLOCK_SIZE <= need <= b.size && need % 4 == 0
    ensures Tiled(Carve(b, need), b.addr, end)
  {
  }

  lemma CarveFirst(b: Block, need: nat)
    requires need <= b.size && need % 4 == 0 && b.size % 4 == 0 && b.free
    ensures var mid := Carve(b, need);
            && 1 <= |mid| <= 2 && mid[0].addr == b.addr && !mid[0].free && need <= mid[0].size <= need + 12
            && (!mid[|mid| - 1].free || |mid| == 2)
  {
  }

  lemma GrantedRounded(p: seq<Block>, start: nat, end: nat, n: nat, p': seq<Block>, i: nat)
    requires Tiled(p, start, end) && AllocatesAt(p, n, p', i)
    ensures Tiled(p', start, end)
    ensures i < |p'| && p'[i].addr == p[i].addr && !p'[i].free
    ensures Rounded(n) <= p'[i].size <= Rounded(n) + Rounded(n) / 32 + 12
  {
    hide SearchSize, ClassOf;
    NeededBounds(n);
    assert Cell(p, end, i);
    AddressesDiffer(p, start, end, i, i);
    var mid := Carve(p[i], Needed(n));
    hide Needed, Rounded, Carve;
    CarveTiled(p[i], AddrAt(p, end, i + 1), Needed(n));
    CarveFirst(p[i], Needed(n));
    assert i > 0 ==> Cell(p, end, i - 1);
    ReplaceTiled(p, start, end, i, i + 1, mid);
    assert p'[i] == mid[0];
  }

  /** A granted request keeps the pool tiled and hands out at most r + r / 32 + 12 bytes for the least size r. */
  lemma Granted(p: seq<Block>, start: nat, end: nat, n: nat, p': seq<Block>, i: nat)
    requires Tiled(p, start, end) && AllocatesAt(p, n, p', i)
    ensures Tiled(p', start, end)
    ensures i < |p'| && p'[i].addr == p[i].addr && !p'[i].free
    ensures n <= p'[i].size && forall r: nat :: LeastSize(n, r) ==> r <= p'[i].size <= r + r / 32 + 12
  {
    hide *;
    GrantedRounded(p, start, end, n, p', i);
    NeededBounds(n);
    RoundedIsLeast(n);
  }

  /** It adds one block to the live ones and leaves the others where they are. */
  lemma GrantedLive(p: seq<Block>, start: nat, end: nat, n: nat, p': seq<Block>, i: nat)
    requires Tiled(p, start, end) && AllocatesAt(p, n, p', i)
    ensures i < |p'| && p[i].addr + BUFFER !in Live(p) && Live(p') == Live(p) + {p[i].addr + BUFFER}
    ensures forall b :: LiveBlock(p', b) <==> LiveBlock(p, b) || b == p'[i]
  {
    CarveLive(p, start, end, i, Carve(p[i], Needed(n)));
  }

  lemma CarveLive(p: seq<Block>, start: nat, end: nat, i: nat, mid: seq<Block>)
    requires Tiled(p, start, end) && FreeAt(p, i)
    requires 1 <= |mid| <= 2 && !mid[0].free && mid[0].addr == p[i].addr && (|mid| == 2 ==> mid[1].free)
    ensures var p' := Replace(p, i, i + 1, mid);
            && p[i].addr + BUFFER !in Live(p) && Live(p') == Live(p) + {p[i].addr + BUFFER}
            && (forall b :: LiveBlock(p', b) <==> LiveBlock(p, b) || b == mid[0])
  {
    var p' := Replace(p, i, i + 1, mid);
    forall j | 0 <= j < |p| && !p[j].free
      ensures p[j].addr != p[i].addr && p[j] in p'
    {
      AddressesDiffer(p, start, end, i, j);
      assert p[j] == if j < i then p'[j] else p'[j - 1 + |mid|];
    }
    hide Tiled;
    forall j | 0 <= j < |p'| && !p'[j].free
      ensures p'[j] == mid[0] || p'[j] in p
    {
    }
    assert p'[i] == mid[0];
  }

  /** The request fails exactly when every free block is smaller than the rounded request. */
  lemma FailsIffNothingFits(p: seq<Block>, n: nat, p': seq<Block>, a: Addr)
    requires Allocates(p, n, p', a)
    ensures a == NULL <==> forall i :: 0 <= i < |p| && p[i].free ==> p[i].size < Needed(n)
  {
    if a != NULL {
      var i: nat :| AllocatesAt(p, n, p', i) && a == p[i].addr + BUFFER;
      assert Fits(p, n, i);
    } else {
      forall i | 0 <= i < |p| && p[i].free
        ensures p[i].size < Needed(n)
      {
        assert !Fits(p, n, i);
      }
    }
  }

  // ----- free_ex

  /** The first and one past the last block that are merged when block k is released. */
  ghost function MergeFrom(p: seq<Block>, k: nat): nat
    requires k < |p|
  {
    if k > 0 && p[k - 1].free then k - 1 else k
  }

  ghost function MergeTo(p: seq<Block>, k: nat): nat
    requires k < |p|
  {
    if k + 1 < |p| && p[k + 1].free then k + 2 else k + 1
  }

  /** One free block over the blocks i..j. */
  ghost function Merged(p: seq<Block>, i: nat, j: nat): Block
    requires i < j <= |p| && p[i].addr + BHDR_OVERHEAD <= p[j - 1].End()
  {
    Block(p[i].addr, p[j - 1].End() - BHDR_OVERHEAD - p[i].addr, true)
  }

  /** free_ex on block k, as a step from pool p to pool p'. */
  ghost predicate ReleasesAt(p: seq<Block>, p': seq<Block>, k: nat) {
    && k < |p|
    && !p[k].free
    && var i, j := MergeFrom(p, k), MergeTo(p, k);
       p[i].addr + BHDR_OVERHEAD <= p[j - 1].End() && p' == Replace(p, i, j, [Merged(p, i, j)])
  }

  ghost predicate Releases(p: seq<Block>, p': seq<Block>, a: Addr) {
    exists k: nat :: ReleasesAt(p, p', k) && a == p[k].addr + BUFFER
  }

  /** Releasing a block keeps the pool tiled: both neighbours are merged with it. */
  lemma Released(p: seq<Block>, start: nat, end: nat, p': seq<Block>, k: nat)
    requires Tiled(p, start, end) && end - start <= MAX_BLOCK && ReleasesAt(p, p', k)
    ensures Tiled(p', start, end)
  {
    var i, j := MergeFrom(p, k), MergeTo(p, k);
    MergedCell(p, start, end, k);
    assert i > 0 ==> Cell(p, end, i - 1);
    assert j < |p| ==> Cell(p, end, j - 1) && Cell(p, end, j);
    assert Cell([Merged(p, i, j)], AddrAt(p, end, j), 0);
    ReplaceTiled(p, start, end, i, j, [Merged(p, i, j)]);
  }

  lemma MergedCell(p: seq<Block>, start: nat, end: nat, k: nat)
    requires Tiled(p, start, end) && end - start <= MAX_BLOCK && k < |p| && !p[k].free
    ensures var i, j := MergeFrom(p, k), MergeTo(p, k);
            && p[i].addr > 0
            && p[i].addr + BHDR_OVERHEAD <= p[j - 1].End()
            && Merged(p, i, j).Sane() && Merged(p, i, j).End() == AddrAt(p, end, j)
            && !FreeAt(p, i - 1) && !FreeAt(p, j)
  {
    var i, j := MergeFrom(p, k), MergeTo(p, k);
    assert Cell(p, end, k) && Cell(p, end, i) && Cell(p, end, j - 1);
    assert i > 0 ==> Cell(p, end, i - 1);
    AddressesDiffer(p, start, end, i, i);
    InOrder(p, start, end, j - 1, |p|);
    MergedSize(p, end, k);
    hide Tiled;
  }

  // The sizes of up to three blocks in a row add up.
  lemma MergedSize(p: seq<Block>, end: nat, k: nat)
    requires k < |p| && Cell(p, end, k) && (k > 0 ==> Cell(p, end, k - 1)) && (k + 1 < |p| ==> Cell(p, end, k + 1))
    ensures var i, j := MergeFrom(p, k), MergeTo(p, k);
            && p[i].addr + BHDR_OVERHEAD + MIN_BLOCK_SIZE <= p[j - 1].End()
            && (p[j - 1].End() - BHDR_OVERHEAD - p[i].addr) % 4 == 0
  {
  }

  /** It takes exactly that block out of the live ones. */
  lemma ReleasedLive(p: seq<Block>, start: nat, end: nat, p': seq<Block>, k: nat)
    requires Tiled(p, start, end) && ReleasesAt(p, p', k)
    ensures Live(p') == Live(p) - {p[k].addr + BUFFER}
    ensures forall b :: LiveBlock(p', b) <==> LiveBlock(p, b) && b != p[k]
  {
    var i, j := MergeFrom(p, k), MergeTo(p, k);
    forall n | 0 <= n < |p| && !p[n].free && n != k
      ensures p[n].addr != p[k].addr && p[n] in p'
    {
      AddressesDiffer(p, start, end, n, k);
      assert p[n] == if n < i then p'[n] else p'[n - j + i + 1];
    }
    forall n | 0 <= n < |p'| && !p'[n].free
      ensures p'[n] in p && p'[n] != p[k]
    {
      var o := if n < i then n else n - i - 1 + j;
      assert p'[n] == p[o];
      AddressesDiffer(p, start, end, o, k);
    }
  }

  /** Releasing what was just handed out restores the pool block for block. */
  lemma ReleaseUndoesGrant(p: seq<Block>, start: nat, end: nat, n: nat, p': seq<Block>, i: nat, p'': seq<Block>)
    requires Tiled(p, start, end) && AllocatesAt(p, n, p', i) && ReleasesAt(p', p'', i)
    ensures p'' == p
  {
    var mid := Carve(p[i], Needed(n));
    CarveEnds(p[i], Needed(n));
    MergesBack(p, start, end, i, mid);
    hide Needed, Replace, Carve, Tiled, MergeFrom, MergeTo;
    assert Merged(p', i, i + |mid|) == p[i];
    ReplaceBack(p, i, mid);
  }

  lemma CarveEnds(b: Block, need: nat)
    requires need <= b.size && b.free
    ensures var mid := Carve(b, need);
            && 1 <= |mid| <= 2 && !mid[0].free && (|mid| == 2 ==> mid[1].free)
            && mid[0].addr == b.addr && mid[|mid| - 1].End() == b.End()
  {
  }

  lemma MergesBack(p: seq<Block>, start: nat, end: nat, i: nat, mid: seq<Block>)
    requires Tiled(p, start, end) && FreeAt(p, i)
    requires 1 <= |mid| <= 2 && !mid[0].free && (|mid| == 2 ==> mid[1].free)
    ensures var q := Replace(p, i, i + 1, mid);
            && MergeFrom(q, i) == i && MergeTo(q, i) == i + |mid|
            && q[i] == mid[0] && q[i + |mid| - 1] == mid[|mid| - 1]
  {
    var q := Replace(p, i, i + 1, mid);
    assert Cell(p, end, i);
    assert i > 0 ==> Cell(p, end, i - 1) && q[i - 1] == p[i - 1];
    assert i + 1 < |p| ==> q[i + |mid|] == p[i + 1];
  }

  lemma ReplaceBack(p: seq<Block>, i: nat, mid: seq<Block>)
    requires i < |p|
    ensures Replace(Replace(p, i, i + 1, mid), i, i + |mid|, [p[i]]) == p
  {
  }

  // ----- runs

  datatype Event = Malloc(n: nat, result: Addr) | Free(ptr: Addr)

  ghost predicate Step(p: seq<Block>, e: Event, p': seq<Block>) {
    match e
    case Malloc(n, a) => Allocates(p, n, p', a)
    case Free(a) => Releases(p, p', a)
  }

  /** A run of the allocator from the fresh pool. */
  ghost predicate Run(start: nat, end: nat, events: seq<Event>, pools: seq<seq<Block>>) {
    && 0 < start && start + BHDR_OVERHEAD + MIN_BLOCK_SIZE <= end && end - start <= MAX_BLOCK && (end - start) % 4 == 0
    && |pools| == |events| + 1
    && pools[0] == [Block(start, end - start - BHDR_OVERHEAD, true)]
    && forall t :: 0 <= t < |events| ==> Step(pools[t], events[t], pools[t + 1])
  }

  /** The pointers handed out and not yet given back. */
  ghost function Outstanding(events: seq<Event>): set<Addr> {
    if events == [] then {}
    else
      var before := Outstanding(events[..|events| - 1]);
      match events[|events| - 1]
      case Malloc(_, a) => if a == NULL then before else before + {a}
      case Free(a) => before - {a}
  }

  lemma StepKeeps(p: seq<Block>, start: nat, end: nat, e: Event, p': seq<Block>)
    requires Tiled(p, start, end) && end - start <= MAX_BLOCK && Step(p, e, p')
    ensures Tiled(p', start, end)
    ensures Live(p') == match e
                        case Malloc(_, a) => if a == NULL then Live(p) else Live(p) + {a}
                        case Free(a) => Live(p) - {a}
    ensures e.Malloc? && e.result != NULL ==> e.result !in Live(p)
    ensures e.Free? ==> e.ptr in Live(p)
  {
    hide Tiled, Carve, Replace, Live, LiveBlock, ClassOf, Needed, LeastSize, MergeFrom, MergeTo;
    match e
    case Malloc(n, a) =>
      if a != NULL {
        var i: nat :| AllocatesAt(p, n, p', i) && a == p[i].addr + BUFFER;
        Granted(p, start, end, n, p', i);
        GrantedLive(p, start, end, n, p', i);
      }
    case Free(a) =>
      var k: nat :| ReleasesAt(p, p', k) && a == p[k].addr + BUFFER;
      UsedIsLive(p, k);
      Released(p, start, end, p', k);
      ReleasedLive(p, start, end, p', k);
  }

  /** In every run the pool stays tiled without free neighbours, loses no byte, and holds the outstanding buffers. */
  lemma {:induction false} EveryRun(start: nat, end: nat, events: seq<Event>, pools: seq<seq<Block>>, t: nat)
    requires Run(start, end, events, pools) && t <= |events|
    ensures Tiled(pools[t], start, end)
    ensures Live(pools[t]) == Outstanding(events[..t])
    ensures start + Total(pools[t]) == end
    ensures t < |events| && events[t].Malloc? && events[t].result != NULL ==>
              events[t].result !in Outstanding(events[..t])
  {
    if t == 0 {
      assert Cell(pools[0], end, 0);
      assert events[..0] == [];
    } else {
      EveryRun(start, end, events, pools, t - 1);
      StepKeeps(pools[t - 1], start, end, events[t - 1], pools[t]);
      assert events[..t][..t - 1] == events[..t - 1];
    }
    if t < |events| {
      StepKeeps(pools[t], start, end, events[t], pools[t + 1]);
    }
    Conservation(pools[t], start, end);
  }

  /** Once everything handed out has been given back, the pool is the initial free block again. */
  lemma AllFreed(start: nat, end: nat, events: seq<Event>, pools: seq<seq<Block>>)
    requires Run(start, end, events, pools) && Outstanding(events) == {}
    ensures pools[|events|] == pools[0]
  {
    EveryRun(start, end, events, pools, |events|);
    assert events[..|events|] == events;
    FullyCoalesced(pools[|events|], start, end);
  }
}
