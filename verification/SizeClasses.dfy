/**
 The size classes of the two-level segregated-fit allocator
 (server/core/libc/tlsf.c, MAPPING_SEARCH and MAPPING_INSERT).

 All free lists are numbered in one row: lists 0..31 are `sb_array`, list
 32 + 32 * fl + sl is `matrix[fl][sl]`. `Floor(c)` is the smallest size of class c;
 the classes are the half-open intervals between consecutive floors.
 */
module SizeClasses {
  import opened Arithmetic
  import opened Bits

  const LOG2_SLI := 5
  const SLI := 32
  const FLI_OFFSET := 7
  const REAL_FLI := 23
  const SMALL_BLOCK := 128
  const MIN_BLOCK_SIZE := 12
  const BHDR_OVERHEAD := 4
  const MAX_BLOCK := 0x4000_0000  // 1 << MAX_FLI
  const CLASSES := 32 + REAL_FLI * SLI

  /** The smallest size of class c. */
  ghost function Floor(c: nat): nat {
    if c < 32 then 4 * c else (32 + c % 32) * Pow2((c - 32) / 32 + 2)
  }

  /** The class of the sizes whose leading bit is k and whose next five bits are q - 32. */
  ghost function ClassAt(k: nat, q: nat): nat
    requires 7 <= k && 32 <= q <= 64
  {
    32 * (k - 6) + q - 32
  }

  /** The class a free block of this size is listed in. */
  ghost function ClassOf(size: nat): nat {
    if size < SMALL_BLOCK then size / 4
    else
      LargeSize(size);
      ClassAt(Log2(size), size / Pow2(Log2(size) - 5))
  }

  // ----- leading bits

  lemma {:induction false} PowMonotone(a: nat, b: nat)
    requires a <= b
    ensures Pow2(a) <= Pow2(b)
    decreases b - a
  {
    if a < b {
      PowMonotone(a + 1, b);
    }
  }

  // The leading bit k of a size of at least 32, and the unit of its size class.
  lemma LeadingBits(size: nat)
    requires size >= 32
    ensures Log2(size) >= 5
    ensures var p := Pow2(Log2(size) - 5); 32 * p <= size < 64 * p
  {
    var k := Log2(size);
    Log2Bounds(size);
    assert Pow2(4) == 16;
    if k < 5 {
      PowMonotone(k, 4);
    } else {
      assert Pow2(k - 1) == 2 * Pow2(k - 2) && Pow2(k - 3) == 2 * Pow2(k - 4);
    }
  }

  lemma LargeSize(size: nat)
    requires size >= SMALL_BLOCK
    ensures Log2(size) >= 7
    ensures 32 <= size / Pow2(Log2(size) - 5) < 64
  {
    LeadingBits(size);
    Log2Bounds(size);
    assert Pow2(6) == 64;
    if Log2(size) < 7 {
      PowMonotone(Log2(size), 6);
    }
    QuotientIn(size, Pow2(Log2(size) - 5), 32, 64);
  }

  // ----- floors

  lemma FloorAt(k: nat, q: nat)
    requires 7 <= k && 32 <= q <= 64
    ensures Floor(ClassAt(k, q)) == q * Pow2(k - 5)
  {
  }

  lemma FirstLargeFloor()
    ensures Floor(32) == SMALL_BLOCK
  {
  }

  lemma FloorStep(c: nat)
    ensures Floor(c) < Floor(c + 1)
  {
    if c >= 32 {
      var k, q := (c - 32) / 32 + 7, 32 + c % 32;
      FloorAt(k, q);
      FloorAt(k, q + 1);
      assert (q + 1) * Pow2(k - 5) == q * Pow2(k - 5) + Pow2(k - 5);
    } else if c == 31 {
      FirstLargeFloor();
    }
  }

  lemma {:induction false} FloorsIncrease(c: nat, d: nat)
    requires c < d
    ensures Floor(c) < Floor(d)
    decreases d - c
  {
    FloorStep(c);
    if c + 1 < d {
      FloorsIncrease(c + 1, d);
    }
  }

  lemma FloorsAreWords(c: nat)
    ensures Floor(c) % 4 == 0
  {
    if c >= 32 {
      var e := (c - 32) / 32;
      assert Pow2(e + 2) == 2 * Pow2(e + 1);
      FourTimes(32 + c % 32, Pow2(e), Pow2(e + 2));
    }
  }

  lemma FourTimes(n: nat, p: nat, p': nat)
    requires p' == 4 * p
    ensures n * p' % 4 == 0
  {
    assert n * p' == (n * p) * 4;
    ModuloIs(n * p', 4, n * p, 0);
  }

  // ----- a size lies in its class

  // The floors around a large size.
  lemma FloorGap(size: nat)
    requires size >= SMALL_BLOCK
    ensures Log2(size) >= 7
    ensures var p := Pow2(Log2(size) - 5);
            Floor(ClassOf(size)) <= size < Floor(ClassOf(size) + 1) == Floor(ClassOf(size)) + p
  {
    LargeSize(size);
    var k := Log2(size);
    var p := Pow2(k - 5);
    var q := size / p;
    FloorAt(k, q);
    FloorAt(k, q + 1);
    hide Pow2, Log2, Floor;
    DivBounds(size, p);
    NextMultiple(q, p);
  }

  lemma SizeInItsClass(size: nat)
    ensures Floor(ClassOf(size)) <= size < Floor(ClassOf(size) + 1)
  {
    if size < SMALL_BLOCK {
      FirstLargeFloor();
    } else {
      FloorGap(size);
    }
  }

  /** A class holds the sizes from its floor up to the next one's: c <= ClassOf(size) iff Floor(c) <= size. */
  lemma ClassVersusFloor(size: nat, c: nat)
    ensures c <= ClassOf(size) <==> Floor(c) <= size
  {
    SizeInItsClass(size);
    if c < ClassOf(size) {
      FloorsIncrease(c, ClassOf(size));
    } else if c > ClassOf(size) + 1 {
      FloorsIncrease(ClassOf(size) + 1, c);
    }
  }

  lemma ClassInRange(size: nat)
    requires size < MAX_BLOCK
    ensures ClassOf(size) < CLASSES
  {
    ClassVersusFloor(size, CLASSES);
    PowerTable();
    assert Pow2(25) == 2 * Pow2(24);
    FloorAt(30, 32);
  }

  // ----- MAPPING_INSERT

  /** fl and sl of a block of at least 128 bytes. */
  method MappingInsert(r: nat) returns (fl: int, sl: int)
    requires SMALL_BLOCK <= r < MAX_BLOCK
    ensures 0 <= fl < REAL_FLI && 0 <= sl < SLI
    ensures 32 + 32 * fl + sl == ClassOf(r)
  {
    LargeSize(r);
    ClassInRange(r);
    fl := Fls(r);
    sl := r / Pow2(fl - LOG2_SLI) - SLI;
    fl := fl - FLI_OFFSET;
  }

  // ----- MAPPING_SEARCH

  /** The first large class all of whose sizes are at least r. */
  ghost function SearchClass(r: nat): nat {
    if r <= SMALL_BLOCK then 32 else ClassOf(r - 1) + 1
  }

  /** The size that is carved out of a large block for a request of r bytes. */
  ghost function SearchSize(r: nat): nat {
    if r < SMALL_BLOCK then r else Floor(SearchClass(r))
  }

  lemma SearchClassIsFirst(r: nat, c: nat)
    requires r >= SMALL_BLOCK
    ensures r <= Floor(c) <==> SearchClass(r) <= c
  {
    ClassVersusFloor(r - 1, c);
    assert r == SMALL_BLOCK ==> ClassOf(r - 1) == 31;
  }

  // Rounding a request up to a floor costs at most one part in 32.
  lemma SearchSizeBounds(r: nat)
    ensures r <= SearchSize(r) <= r + r / 32
    ensures r % 4 == 0 ==> SearchSize(r) % 4 == 0
  {
    hide Floor, Log2, Pow2, ClassOf;
    if r >= SMALL_BLOCK {
      FloorsAreWords(SearchClass(r));
      FirstLargeFloor();
    }
    if r > SMALL_BLOCK {
      FloorGap(r - 1);
      LeadingBits(r - 1);
    }
  }

  // A request rounded up to a multiple q of its unit p is searched from the class of q.
  lemma SearchClassAt(r: nat, q: nat)
    requires r >= SMALL_BLOCK && Log2(r) >= 7 && 32 <= q <= 64
    requires var p := Pow2(Log2(r) - 5); q * p - p < r <= q * p && 32 * p <= r
    ensures SearchClass(r) == ClassAt(Log2(r), q)
  {
    hide Floor, Log2, Pow2, SearchClass;
    var k := Log2(r);
    var c := ClassAt(k, q);
    FloorAt(k, q);
    SearchClassIsFirst(r, c);
    SearchClassIsFirst(r, c - 1);
    if q == 32 {
      FloorStep(c - 1);
    } else {
      FloorAt(k, q - 1);
      NextMultiple(q, Pow2(k - 5));
    }
  }

  // Where MAPPING_SEARCH ends up: adding p - 1 and masking rounds up to a multiple of p.
  lemma SearchLands(r: nat, r1: nat)
    requires r >= SMALL_BLOCK && Log2(r) >= 7 && r1 == r + Pow2(Log2(r) - 5) - 1
    ensures r1 - r1 % Pow2(Log2(r) - 5) == SearchSize(r)
    ensures SearchClass(r) == ClassOf(r1)
  {
    hide Floor, Log2, Pow2;
    LeadingBits(r);
    var k := Log2(r);
    var p := Pow2(k - 5);
    DivBounds(r1, p);
    QuotientIn(r1, p, 32, 65);
    var q := r1 / p;
    SearchClassAt(r, q);
    FloorAt(k, q);
    if q < 64 {
      SameOctave(r1, k, p);
    } else {
      NextOctave(r1, k, p);
    }
  }

  lemma SameOctave(x: nat, k: nat, p: nat)
    requires k >= 7 && p == Pow2(k - 5) && 32 * p <= x && x / p < 64
    ensures Log2(x) == k
  {
    DivBounds(x, p);
    MultiplesOrder(x / p + 1, 64, p);
    NextMultiple(x / p, p);
    assert Pow2(k - 1) == 2 * Pow2(k - 2) && Pow2(k - 3) == 2 * Pow2(k - 4);
    Log2Unique(x, k);
  }

  lemma NextOctave(x: nat, k: nat, p: nat)
    requires k >= 7 && p == Pow2(k - 5) && 64 * p <= x < 65 * p
    ensures Log2(x) == k + 1 && x / Pow2(k - 4) == 32
  {
    assert Pow2(k - 1) == 2 * Pow2(k - 2) && Pow2(k - 3) == 2 * Pow2(k - 4) && Pow2(k - 4) == 2 * p;
    assert Pow2(k + 1) == 2 * Pow2(k);
    Log2Unique(x, k + 1);
    QuotientIn(x, 2 * p, 32, 33);
  }

  // Requests of 32 to 124 bytes: no rounding, and a negative first-level index.
  lemma SmallSearch(r: nat)
    requires 32 <= r < SMALL_BLOCK && r % 4 == 0
    ensures Log2(r) >= 5
    ensures var p := Pow2(Log2(r) - 5); var r1 := r + p - 1; Log2(r1) < 7 && r1 - r1 % p == r
  {
    assert Pow2(5) == 32 && Pow2(6) == 64 && Pow2(1) == 2;
    if r < 64 {
      Log2Unique(r, 5);
    } else {
      Log2Unique(r, 6);
      Log2Unique(r + 1, 6);
    }
  }

  // The two numbers MAPPING_SEARCH computes from the request and its unit.
  lemma Searched(request: nat)
    requires 32 <= request < 0x8000_0000 && request % 4 == 0
    ensures Log2(request) >= 5
    ensures var p := Pow2(Log2(request) - 5);
            var r := request + p - 1;
            && r < 0x1_0000_0000 && Log2(r) >= 5 && r - r % p == SearchSize(request)
            && if Log2(r) < 7 then SearchClass(request) == 32
               else 32 <= r / Pow2(Log2(r) - 5) < 64
                    && 32 + 32 * (Log2(r) - 7) + r / Pow2(Log2(r) - 5) - 32 == SearchClass(request)
  {
    hide Pow2, Log2, Floor;
    LeadingBits(request);
    var p := Pow2(Log2(request) - 5);
    var r := request + p - 1;
    LeadingBits(r);
    if request < SMALL_BLOCK {
      SmallSearch(request);
    } else {
      LargeSize(request);
      SearchLands(request, r);
      LargeSize(r);
    }
  }

  /** The rounded size and the class to search from, for a request of at least 32 bytes. */
  method MappingSearch(request: nat) returns (r: nat, fl: int, sl: int)
    requires 32 <= request < 0x8000_0000 && request % 4 == 0
    ensures r == SearchSize(request)
    ensures 0 <= fl && 0 <= sl < SLI && 32 + 32 * fl + sl == SearchClass(request)
  {
    hide Pow2, Log2, SearchSize, SearchClass, ClassOf, Floor;
    Searched(request);
    var t := Fls(request);
    t := Pow2(t - LOG2_SLI) - 1;
    r := request + t;
    fl := Fls(r);
    sl := r / Pow2(fl - LOG2_SLI) - SLI;
    fl := fl - FLI_OFFSET;
    if fl < 0 {
      fl, sl := 0, 0;
    }
    r := r - r % (t + 1);
  }
}
