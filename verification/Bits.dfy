/**
 32-bit words as sets of bit numbers, and the kernel's two bit searches
 (include/ertl_core/bitop.h, include/ertl_core/bitmap.h).

 A bitmap is a `bv32`; `Members` is the set of bit numbers it stands for, and every
 operation is characterised by what it does to that set. Block sizes are natural
 numbers, so `Fls`, which is only ever applied to sizes, is read arithmetically.
 */
module Bits {

  type Word = bv32
  type BitNo = i: int | 0 <= i < 32

  /** A bit number as a shift amount. */
  function Amount(i: BitNo): bv5 {
    if i == 0 then 0 else Amount(i - 1) + 1
  }

  predicate BitAt(w: Word, b: bv5) {
    (w >> b) & 1 == 1
  }

  predicate Bit(w: Word, i: BitNo) {
    BitAt(w, Amount(i))
  }

  /** The bitmap as a set. */
  ghost function Members(w: Word): set<int> {
    set i: int | 0 <= i < 32 && Bit(w, i)
  }

  // The operations on words, for a shift amount.
  function SetAmount(w: Word, b: bv5): Word {
    w | (1 << b)
  }

  function ClearAmount(w: Word, b: bv5): Word {
    w & !(1 << b)
  }

  function FromAmount(w: Word, b: bv5): Word {
    w & (0xFFFF_FFFF << b)
  }

  /** `w | (1 << n)` */
  function SetBit(w: Word, n: BitNo): Word {
    SetAmount(w, Amount(n))
  }

  /** `w & ~(1 << n)` */
  function ClearBit(w: Word, n: BitNo): Word {
    ClearAmount(w, Amount(n))
  }

  /** `w & (~0 << n)` */
  function From(w: Word, n: BitNo): Word {
    FromAmount(w, Amount(n))
  }

  // ----- shift amounts and bit numbers

  function Number(b: bv5): BitNo {
    (if b & 1 == 0 then 0 else 1) + (if b & 2 == 0 then 0 else 2) + (if b & 4 == 0 then 0 else 4)
    + (if b & 8 == 0 then 0 else 8) + (if b & 16 == 0 then 0 else 16)
  }

  lemma NumberNext(b: bv5)
    ensures b != 31 ==> Number(b + 1) == Number(b) + 1
  {
  }

  lemma NumberOrder(b: bv5, c: bv5)
    ensures b < c <==> Number(b) < Number(c)
    ensures b == c <==> Number(b) == Number(c)
  {
  }

  lemma {:induction false} NumberOfAmount(i: BitNo)
    ensures Number(Amount(i)) == i
  {
    if i != 0 {
      NumberOfAmount(i - 1);
      NumberNext(Amount(i - 1));
    }
  }

  lemma AmountOrder(i: BitNo, j: BitNo)
    ensures Amount(i) < Amount(j) <==> i < j
    ensures Amount(i) == Amount(j) <==> i == j
  {
    NumberOfAmount(i);
    NumberOfAmount(j);
    NumberOrder(Amount(i), Amount(j));
  }

  lemma AmountOfNumber(b: bv5)
    ensures Amount(Number(b)) == b
  {
    NumberOfAmount(Number(b));
    NumberOrder(Amount(Number(b)), b);
  }

  // ----- what the word operations do to one bit

  lemma SetAt(w: Word, n: bv5, b: bv5)
    ensures BitAt(SetAmount(w, n), b) <==> b == n || BitAt(w, b)
  {
  }

  lemma ClearAt(w: Word, n: bv5, b: bv5)
    ensures BitAt(ClearAmount(w, n), b) <==> b != n && BitAt(w, b)
  {
  }

  lemma FromAt(w: Word, n: bv5, b: bv5)
    ensures BitAt(FromAmount(w, n), b) <==> n <= b && BitAt(w, b)
  {
  }

  lemma BitOfSetBit(w: Word, n: BitNo, i: BitNo)
    ensures Bit(SetBit(w, n), i) <==> i == n || Bit(w, i)
  {
    hide BitAt, Amount, SetAmount;
    SetAt(w, Amount(n), Amount(i));
    AmountOrder(i, n);
  }

  lemma BitOfClearBit(w: Word, n: BitNo, i: BitNo)
    ensures Bit(ClearBit(w, n), i) <==> i != n && Bit(w, i)
  {
    hide BitAt, Amount, ClearAmount;
    ClearAt(w, Amount(n), Amount(i));
    AmountOrder(i, n);
  }

  lemma BitOfFrom(w: Word, n: BitNo, i: BitNo)
    ensures Bit(From(w, n), i) <==> n <= i && Bit(w, i)
  {
    hide BitAt, Amount, FromAmount;
    FromAt(w, Amount(n), Amount(i));
    AmountOrder(i, n);
  }

  // ----- what they do to the set

  lemma MembersOfSetBit(w: Word, n: BitNo)
    ensures Members(SetBit(w, n)) == Members(w) + {n}
  {
    hide SetBit, Bit;
    forall i: BitNo
      ensures Bit(SetBit(w, n), i) <==> i == n || Bit(w, i)
    {
      BitOfSetBit(w, n, i);
    }
  }

  lemma MembersOfClearBit(w: Word, n: BitNo)
    ensures Members(ClearBit(w, n)) == Members(w) - {n}
  {
    hide ClearBit, Bit;
    forall i: BitNo
      ensures Bit(ClearBit(w, n), i) <==> i != n && Bit(w, i)
    {
      BitOfClearBit(w, n, i);
    }
  }

  lemma MembersOfFrom(w: Word, n: BitNo)
    ensures forall i :: i in Members(From(w, n)) <==> i in Members(w) && n <= i
  {
    hide From, Bit;
    forall i: BitNo
      ensures Bit(From(w, n), i) <==> n <= i && Bit(w, i)
    {
      BitOfFrom(w, n, i);
    }
  }

  // ----- _ffs

  /** Right shift of a signed 32-bit word: the sign bit is copied in. */
  function ArithmeticShiftRight(x: Word, k: bv5): Word {
    if x & 0x8000_0000 == 0 then x >> k else (x >> k) | !(0xFFFF_FFFF >> k)
  }

  // The search as a chain of halvings; r is the shift amount found so far.

  ghost function Lowest1(x: Word, r: bv5): bv5 {
    if x & 0x1 == 0 then r + 1 else r
  }

  ghost function Lowest2(x: Word, r: bv5): bv5 {
    if x & 0x3 == 0 then Lowest1(ArithmeticShiftRight(x, 2), r + 2) else Lowest1(x, r)
  }

  ghost function Lowest4(x: Word, r: bv5): bv5 {
    if x & 0xF == 0 then Lowest2(ArithmeticShiftRight(x, 4), r + 4) else Lowest2(x, r)
  }

  ghost function Lowest8(x: Word, r: bv5): bv5 {
    if x & 0xFF == 0 then Lowest4(ArithmeticShiftRight(x, 8), r + 8) else Lowest4(x, r)
  }

  ghost function LowestAmount(x: Word): bv5 {
    if x & 0xFFFF == 0 then Lowest8(ArithmeticShiftRight(x, 16), 16) else Lowest8(x, 0)
  }

  predicate FirstBit(x: Word, t: bv5) {
    BitAt(x, t) && x & ((1 << t) - 1) == 0
  }

  // Halving: the first bit of x is found in the lower half, or in the upper half shifted down.

  lemma Lowest2At(x: Word, r: bv5)
    requires x & 0xF != 0
    ensures Lowest2(x, r) - r < 4 && FirstBit(x, Lowest2(x, r) - r)
  {
  }

  lemma ShiftBy4(x: Word, t: bv5)
    requires x & 0xF == 0 && x & 0xFF != 0
    ensures ArithmeticShiftRight(x, 4) & 0xF != 0
    ensures t < 4 && FirstBit(ArithmeticShiftRight(x, 4), t) ==> FirstBit(x, t + 4)
  {
  }

  lemma Lowest4At(x: Word, r: bv5)
    requires x & 0xFF != 0
    ensures Lowest4(x, r) - r < 8 && FirstBit(x, Lowest4(x, r) - r)
  {
    hide Lowest2, FirstBit, ArithmeticShiftRight;
    if x & 0xF == 0 {
      var y := ArithmeticShiftRight(x, 4);
      ShiftBy4(x, Lowest2(y, r + 4) - (r + 4));
      Lowest2At(y, r + 4);
    } else {
      Lowest2At(x, r);
    }
  }

  lemma ShiftBy8(x: Word, t: bv5)
    requires x & 0xFF == 0 && x & 0xFFFF != 0
    ensures ArithmeticShiftRight(x, 8) & 0xFF != 0
    ensures t < 8 && FirstBit(ArithmeticShiftRight(x, 8), t) ==> FirstBit(x, t + 8)
  {
  }

  lemma Lowest8At(x: Word, r: bv5)
    requires x & 0xFFFF != 0
    ensures Lowest8(x, r) - r < 16 && FirstBit(x, Lowest8(x, r) - r)
  {
    hide Lowest4, FirstBit, ArithmeticShiftRight;
    if x & 0xFF == 0 {
      var y := ArithmeticShiftRight(x, 8);
      ShiftBy8(x, Lowest4(y, r + 8) - (r + 8));
      Lowest4At(y, r + 8);
    } else {
      Lowest4At(x, r);
    }
  }

  lemma ShiftBy16(x: Word, t: bv5)
    requires x & 0xFFFF == 0 && x & 0xFFFF_FFFF != 0
    ensures ArithmeticShiftRight(x, 16) & 0xFFFF != 0
    ensures t < 16 && FirstBit(ArithmeticShiftRight(x, 16), t) ==> FirstBit(x, t + 16)
  {
  }

  lemma LowestAmountAt(x: Word)
    requires x != 0
    ensures FirstBit(x, LowestAmount(x))
  {
    hide Lowest8, FirstBit, ArithmeticShiftRight;
    if x & 0xFFFF == 0 {
      var y := ArithmeticShiftRight(x, 16);
      ShiftBy16(x, Lowest8(y, 16) - 16);
      Lowest8At(y, 16);
    } else {
      Lowest8At(x, 0);
    }
  }

  lemma FirstBitIsFirst(x: Word, t: bv5, b: bv5)
    requires FirstBit(x, t) && b < t
    ensures !BitAt(x, b)
  {
  }

  lemma BitOfLowest(w: Word, i: BitNo)
    requires w != 0
    ensures Bit(w, Number(LowestAmount(w)))
    ensures i < Number(LowestAmount(w)) ==> !Bit(w, i)
  {
    hide LowestAmount, BitAt;
    var r := Number(LowestAmount(w));
    AmountOfNumber(LowestAmount(w));
    LowestAmountAt(w);
    AmountOrder(i, r);
    if i < r {
      FirstBitIsFirst(w, LowestAmount(w), Amount(i));
    }
  }

  lemma BitOfZero(i: BitNo)
    ensures !Bit(0, i)
  {
  }

  // A word is zero exactly when it is the empty set; otherwise LowestAmount is its minimum.
  lemma LowestMember(w: Word)
    ensures w == 0 <==> Members(w) == {}
    ensures w != 0 ==> var r := Number(LowestAmount(w)); r in Members(w) && forall i :: i in Members(w) ==> r <= i
  {
    hide LowestAmount, Bit, Number;
    var r := Number(LowestAmount(w));
    forall i: BitNo
      ensures !Bit(0, i)
      ensures w != 0 && i < r ==> !Bit(w, i)
    {
      BitOfZero(i);
      if w != 0 {
        BitOfLowest(w, i);
      }
    }
    if w != 0 {
      BitOfLowest(w, r);
      assert r in Members(w);
    }
  }

  /** The word without bits is zero. */
  lemma ZeroIsEmpty(w: Word)
    ensures w == 0 <==> Members(w) == {}
  {
    hide Members, Number, LowestAmount;
    LowestMember(w);
  }

  /** The lowest set bit of a word, or -1 for the empty word. */
  method Ffs(word: Word) returns (r: int)
    ensures -1 <= r < 32 && (r == -1 <==> Members(word) == {})
    ensures r != -1 ==> r in Members(word) && forall i :: i in Members(word) ==> r <= i
  {
    hide Members, Number, ArithmeticShiftRight, Lowest1, Lowest2, Lowest4, Lowest8, LowestAmount;
    LowestMember(word);
    var x := word;
    r := 0;
    if x == 0 {
      return -1;
    }
    ghost var b: bv5 := 0;
    SearchStart(x);
    if x & 0xFFFF == 0 {
      x := ArithmeticShiftRight(x, 16);
      r := r + 16;
      b := b + 16;
    }
    SearchStep(x, b);
    if x & 0xFF == 0 {
      x := ArithmeticShiftRight(x, 8);
      r := r + 8;
      b := b + 8;
    }
    SearchStep(x, b);
    if x & 0xF == 0 {
      x := ArithmeticShiftRight(x, 4);
      r := r + 4;
      b := b + 4;
    }
    SearchStep(x, b);
    if x & 0x3 == 0 {
      x := ArithmeticShiftRight(x, 2);
      r := r + 2;
      b := b + 2;
    }
    SearchStep(x, b);
    if x & 0x1 == 0 {
      x := ArithmeticShiftRight(x, 1);
      r := r + 1;
      b := b + 1;
    }
    assert r == Number(b) && b == LowestAmount(word);
  }

  lemma SearchStart(x: Word)
    ensures Number(0) == 0 && Number(16) == 16
    ensures LowestAmount(x) == if x & 0xFFFF == 0 then Lowest8(ArithmeticShiftRight(x, 16), 16) else Lowest8(x, 0)
  {
  }

  lemma SearchStep(x: Word, b: bv5)
    ensures Lowest8(x, b) == if x & 0xFF == 0 then Lowest4(ArithmeticShiftRight(x, 8), b + 8) else Lowest4(x, b)
    ensures Lowest4(x, b) == if x & 0xF == 0 then Lowest2(ArithmeticShiftRight(x, 4), b + 4) else Lowest2(x, b)
    ensures Lowest2(x, b) == if x & 0x3 == 0 then Lowest1(ArithmeticShiftRight(x, 2), b + 2) else Lowest1(x, b)
    ensures Lowest1(x, b) == if x & 0x1 == 0 then b + 1 else b
    ensures b & 8 == 0 ==> Number(b + 8) == Number(b) + 8
    ensures b & 4 == 0 ==> Number(b + 4) == Number(b) + 4
    ensures b & 2 == 0 ==> Number(b + 2) == Number(b) + 2
    ensures b & 1 == 0 ==> Number(b + 1) == Number(b) + 1
  {
  }

  // ----- _fls

  function Pow2(n: nat): (p: nat)
    ensures p >= 1
  {
    if n == 0 then 1 else 2 * Pow2(n - 1)
  }

  /** The number of the highest set bit of x. */
  ghost function Log2(x: nat): nat
    requires x > 0
  {
    if x == 1 then 0 else 1 + Log2(x / 2)
  }

  lemma {:induction false} Log2Bounds(x: nat)
    requires x > 0
    ensures Pow2(Log2(x)) <= x < 2 * Pow2(Log2(x))
  {
    if x != 1 {
      Log2Bounds(x / 2);
    }
  }

  lemma {:induction false} Log2Unique(x: nat, k: nat)
    requires Pow2(k) <= x < 2 * Pow2(k)
    ensures Log2(x) == k
  {
    if k != 0 {
      Log2Unique(x / 2, k - 1);
    }
  }

  lemma {:induction false} Log2Shift(x: nat, n: nat, p: nat)
    requires x > 0 && p == Pow2(n)
    ensures x * p > 0 && Log2(x * p) == Log2(x) + n
  {
    if n != 0 {
      Log2Shift(x, n - 1, p / 2);
      assert x * p == 2 * (x * (p / 2));
    }
  }

  lemma PowerTable()
    ensures Pow2(1) == 2 && Pow2(2) == 4 && Pow2(4) == 0x10 && Pow2(8) == 0x100
    ensures Pow2(16) == 0x1_0000 && Pow2(24) == 0x100_0000 && Pow2(31) == 0x8000_0000
  {
    assert Pow2(12) == 0x1000;
    assert Pow2(20) == 0x10_0000;
    assert Pow2(28) == 0x1000_0000;
  }

  /**
   The highest set bit of an unsigned 32-bit word, or -1 for zero. A test that the
   upper part of the word is clear is a comparison with a power of two.
   */
  method Fls(word: nat) returns (r: int)
    requires word < 0x1_0000_0000
    ensures word == 0 ==> r == -1
    ensures word > 0 ==> r == Log2(word) < 32
  {
    PowerTable();
    var x := word;
    r := 31;
    if x == 0 {
      return -1;
    }
    if x < 0x1_0000 {
      Log2Shift(x, 16, 0x1_0000);
      x := x * 0x1_0000;
      r := r - 16;
    }
    assert 0x1_0000 <= x < 0x1_0000_0000 && Log2(x) == Log2(word) + 31 - r;
    if x < 0x100_0000 {
      Log2Shift(x, 8, 0x100);
      x := x * 0x100;
      r := r - 8;
    }
    assert 0x100_0000 <= x < 0x1_0000_0000 && Log2(x) == Log2(word) + 31 - r;
    if x < 0x1000_0000 {
      Log2Shift(x, 4, 0x10);
      x := x * 0x10;
      r := r - 4;
    }
    assert 0x1000_0000 <= x < 0x1_0000_0000 && Log2(x) == Log2(word) + 31 - r;
    if x < 0x4000_0000 {
      Log2Shift(x, 2, 4);
      x := x * 4;
      r := r - 2;
    }
    assert 0x4000_0000 <= x < 0x1_0000_0000 && Log2(x) == Log2(word) + 31 - r;
    if x < 0x8000_0000 {
      Log2Shift(x, 1, 2);
      x := x * 2;
      r := r - 1;
    }
    Log2Unique(x, 31);
  }
}
