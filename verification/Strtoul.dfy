/**
 strtoul and strtol (server/core/libc/stdlib.c), against section 7.20.1.4 of ISO/IEC
 9899:1999: what is converted is the longest initial part of the string, after white
 space, that has the expected form. Characters are bytes; unsigned long has 32 bits.
 */
module Strtoul {
  import opened Arithmetic

  const ULONG_MAX := 0xFFFF_FFFF
  const LONG_MAX := 0x7FFF_FFFF
  const LONG_MIN := -0x8000_0000
  const ABS_LONG_MIN := 0x8000_0000

  /** The bytes before the terminating zero. */
  type CString = s: seq<int> | forall i :: 0 <= i < |s| ==> 0 < s[i] < 256

  // ----- the expected form

  /** The value of a digit or letter, 36 for anything else. */
  function Digit(c: int): (d: nat)
    ensures d <= 36
  {
    if '0' as int <= c <= '9' as int then c - '0' as int
    else if 'a' as int <= c <= 'z' as int then c - 'a' as int + 10
    else if 'A' as int <= c <= 'Z' as int then c - 'A' as int + 10
    else 36
  }

  /** A digit string read in base b. */
  function Value(ds: seq<int>, b: nat): nat {
    if ds == [] then 0 else Value(ds[..|ds| - 1], b) * b + Digit(ds[|ds| - 1])
  }

  predicate ValidBase(base: int) {
    base == 0 || 2 <= base <= 36
  }

  predicate IsX(c: int) {
    c == 'x' as int || c == 'X' as int
  }

  /** Length of the prefix of a numeral, and the base its digits are in. */
  function Notation(u: seq<int>, base: int): (int, int) {
    if (base == 0 || base == 16) && |u| >= 3 && u[0] == '0' as int && IsX(u[1]) then (2, 16)
    else if base != 0 then (0, base)
    else if |u| >= 1 && u[0] == '0' as int then (0, 8)
    else (0, 10)
  }

  ghost predicate AllDigits(ds: seq<int>, b: int) {
    forall i :: 0 <= i < |ds| ==> Digit(ds[i]) < b
  }

  /** At least one digit of the base; in base 0 an integer constant; in bases 0 and 16 also 0x and further digits. */
  ghost predicate IsNumeral(u: seq<int>, base: int) {
    var (skip, b) := Notation(u, base);
    |u| > skip && AllDigits(u[skip..], b)
  }

  function SignLength(t: seq<int>): (k: nat)
    ensures k <= |t|
  {
    if t != [] && (t[0] == '-' as int || t[0] == '+' as int) then 1 else 0
  }

  ghost predicate IsSubject(t: seq<int>, base: int) {
    IsNumeral(t[SignLength(t)..], base)
  }

  ghost predicate HasSubject(t: seq<int>, base: int) {
    exists n :: 0 <= n <= |t| && IsSubject(t[..n], base)
  }

  /** The first n characters are the longest initial part of the expected form. */
  ghost predicate LongestSubject(t: seq<int>, base: int, n: int) {
    0 <= n <= |t| && IsSubject(t[..n], base) && forall m :: n < m <= |t| ==> !IsSubject(t[..m], base)
  }

  function Magnitude(t: seq<int>, base: int): nat
    requires ValidBase(base)
  {
    var u := t[SignLength(t)..];
    var (skip, b) := Notation(u, base);
    if skip <= |u| then Value(u[skip..], b) else 0
  }

  predicate Negative(t: seq<int>) {
    t != [] && t[0] == '-' as int
  }

  /** Position of the first character that is not white space. */
  function Blanks(s: seq<int>): (k: nat)
    ensures k <= |s| && (forall i :: 0 <= i < k ==> IsSpace(s[i])) && (k < |s| ==> !IsSpace(s[k]))
  {
    if s != [] && IsSpace(s[0]) then 1 + Blanks(s[1..]) else 0
  }

  // ----- the source's character tests

  function Char(s: CString, i: nat): int {
    if i < |s| then s[i] else 0
  }

  function Unsigned(x: int): nat {
    x % WORD
  }

  predicate IsSpace(c: int) {
    Unsigned(c - 9) < 5 || c == ' ' as int
  }

  /** c | 0x20 */
  function Or20(c: int): int {
    if c / 32 % 2 == 0 then c + 32 else c
  }

  predicate IsXDigit(c: int) {
    Unsigned(c - '0' as int) < 10 || Unsigned(Or20(c) - 'a' as int) < 6
  }

  predicate IsAlnum(c: int) {
    Unsigned(Or20(c) - 'a' as int) < 26 || Unsigned(c - '0' as int) < 10
  }

  /** The digit loop's decoding, kept in an unsigned char. */
  function Decode(c: int): nat {
    (if c >= 'a' as int then c - 'a' as int + 10
     else if c >= 'A' as int then c - 'A' as int + 10
     else if c <= '9' as int then c - '0' as int
     else 0xff) % 256
  }

  /** The decoding finds exactly the digits of the base, and the hexadecimal and alphanumeric tests exactly theirs. */
  lemma CharacterTests(c: int)
    requires 0 <= c < 256
    ensures Digit(c) < 36 ==> Decode(c) == Digit(c)
    ensures Digit(c) == 36 ==> Decode(c) >= 36
    ensures IsXDigit(c) <==> Digit(c) < 16
    ensures IsAlnum(c) <==> Digit(c) < 36
    ensures IsSpace(c) <==> c == ' ' as int || 9 <= c <= 13
  {
    hide Or20;
    EitherCase(c, 6);
    EitherCase(c, 26);
  }

  lemma EitherCase(c: int, n: nat)
    requires 0 <= c < 256 && n <= 26
    ensures Unsigned(Or20(c) - 'a' as int) < n <==> 'a' as int <= c < 'a' as int + n || 'A' as int <= c < 'A' as int + n
  {
  }

  // ----- what the values are

  /** The digits and letters stand for 0 to 35, both cases alike, and nothing else does. */
  lemma DigitValues(d: nat)
    requires d < 36
    ensures forall c :: Digit(c) == d <==>
              if d < 10 then c == '0' as int + d else c == 'a' as int + d - 10 || c == 'A' as int + d - 10
  {
  }

  function Power(b: nat, n: nat): nat {
    if n == 0 then 1 else b * Power(b, n - 1)
  }

  /** Numerals are positional. */
  lemma {:induction false} ValueAppends(x: seq<int>, y: seq<int>, b: nat)
    ensures Value(x + y, b) == Value(x, b) * Power(b, |y|) + Value(y, b)
    decreases |y|
  {
    if y == [] {
      assert x + y == x;
    } else {
      var y' := y[..|y| - 1];
      assert (x + y)[..|x + y| - 1] == x + y';
      ValueAppends(x, y', b);
      ShiftedSum(Value(x, b), Power(b, |y'|), Value(y', b), b);
    }
  }

  lemma ShiftedSum(v: nat, p: nat, w: nat, b: nat)
    ensures (v * p + w) * b == v * (b * p) + w * b
  {
  }

  ghost predicate HexForm(u: seq<int>) {
    |u| >= 3 && u[0] == '0' as int && IsX(u[1]) && AllDigits(u[2..], 16)
  }

  /** The expected form, base by base, without the sign. */
  lemma NumeralForms(u: seq<int>, base: int)
    requires ValidBase(base)
    ensures base != 0 && base != 16 ==> (IsNumeral(u, base) <==> u != [] && AllDigits(u, base))
    ensures base == 16 ==> (IsNumeral(u, base) <==> (u != [] && AllDigits(u, 16)) || HexForm(u))
    ensures base == 0 ==> (IsNumeral(u, base) <==>
                             || (u != [] && u[0] != '0' as int && AllDigits(u, 10))
                             || (u != [] && u[0] == '0' as int && AllDigits(u, 8))
                             || HexForm(u))
  {
    assert u[0..] == u;
    if |u| >= 2 && IsX(u[1]) {
      assert !AllDigits(u, 16) && !AllDigits(u, 8);
    }
  }

  /** And the value of each form. */
  lemma FormValues(t: seq<int>, base: int)
    requires ValidBase(base) && IsSubject(t, base)
    ensures var u := t[SignLength(t)..];
            && (base != 0 && base != 16 ==> Magnitude(t, base) == Value(u, base))
            && ((base == 0 || base == 16) && HexForm(u) ==> Magnitude(t, base) == Value(u[2..], 16))
            && (base == 16 && !HexForm(u) ==> Magnitude(t, base) == Value(u, 16))
            && (base == 0 && u[0] != '0' as int ==> Magnitude(t, base) == Value(u, 10))
            && (base == 0 && u[0] == '0' as int && !HexForm(u) ==> Magnitude(t, base) == Value(u, 8))
  {
    assert t[SignLength(t)..][0..] == t[SignLength(t)..];
  }

  /** strtoul's value: ULONG_MAX for too large a numeral, else the numeral, negated modulo 2^32 after a minus sign. */
  lemma UnsignedValueIs(t: seq<int>, base: int)
    requires ValidBase(base) && t != []
    ensures var m, r := Magnitude(t, base), UnsignedValue(t, base);
            && r <= ULONG_MAX
            && (m > ULONG_MAX ==> r == ULONG_MAX)
            && (m <= ULONG_MAX && t[0] != '-' as int ==> r == m)
            && (m <= ULONG_MAX && t[0] == '-' as int ==> r + m == if m == 0 then 0 else 0x1_0000_0000)
  {
  }

  /** strtol's value: the signed numeral, or the end of the range of long it lies beyond. */
  lemma SignedValueIs(t: seq<int>, base: int)
    requires ValidBase(base) && t != []
    ensures var m: int, r := Magnitude(t, base), SignedValue(t, base);
            var signed := if t[0] == '-' as int then -m else m;
            && LONG_MIN <= r <= LONG_MAX
            && (LONG_MIN <= signed <= LONG_MAX ==> r == signed)
            && (signed < LONG_MIN ==> r == LONG_MIN)
            && (signed > LONG_MAX ==> r == LONG_MAX)
  {
  }

  // ----- one digit

  /**
   The byte-wise step: nothing in it wraps before w << 8 does, it yields v * base + c modulo 2^32,
   and its test tells exactly when that is too large.
   */
  method AddDigit(v: nat, base: nat, c: nat) returns (v': nat, overflow: bool)
    requires v <= ULONG_MAX && 2 <= base <= 36 && c < base
    ensures v' == (v * base + c) % WORD
    ensures overflow <==> v * base + c > ULONG_MAX
  {
    var x := v % 256 * base + c;
    var w := v / 256 * base + x / 256;
    SplitProduct(v, base, c, x, w);
    AddedDigit(v * base + c, x, w);
    assert x <= ULONG_MAX && w <= ULONG_MAX;
    overflow := w > ULONG_MAX / 256;
    v' := Unsigned(Unsigned(w * 256) + x % 256);
  }

  lemma AddedDigit(total: nat, x: nat, w: nat)
    requires total == 256 * w + x % 256 && x <= 255 * 36 + 35 && w <= 0xFF_FFFF * 36 + 35
    ensures x <= ULONG_MAX && w <= ULONG_MAX
    ensures Unsigned(Unsigned(w * 256) + x % 256) == total % WORD
    ensures w > ULONG_MAX / 256 <==> total > ULONG_MAX
  {
    Recombine(w, x % 256);
  }

  lemma Recombine(w: nat, low: nat)
    requires low < 256
    ensures Unsigned(Unsigned(w * 256) + low) == (256 * w + low) % WORD
    ensures w > ULONG_MAX / 256 <==> 256 * w + low > ULONG_MAX
  {
    var q, r := w / 0x100_0000, w % 0x100_0000;
    ModuloIs(w * 256, WORD, q, 256 * r);
    ModuloIs(256 * w + low, WORD, q, 256 * r + low);
    ModuloIs(256 * r + low, WORD, 0, 256 * r + low);
  }

  lemma SplitProduct(v: nat, base: nat, c: nat, x: nat, w: nat)
    requires v <= ULONG_MAX && 2 <= base <= 36 && c < base
    requires x == v % 256 * base + c && w == v / 256 * base + x / 256
    ensures v * base + c == 256 * w + x % 256 && x <= 255 * 36 + 35 && w <= 0xFF_FFFF * 36 + 35
  {
    var q, r := v / 256, v % 256;
    Distribute(q, r, base);
    Products(r, 255, base);
    Products(q, 0xFF_FFFF, base);
  }

  lemma Distribute(q: nat, r: nat, c: nat)
    ensures (256 * q + r) * c == 256 * (q * c) + r * c
  {
  }

  lemma Products(a: nat, limit: nat, base: nat)
    requires a <= limit && base <= 36
    ensures a * base <= limit * 36
  {
  }

  /** What the digit loop knows: ds has been read. */
  ghost predicate Reading(ds: seq<int>, base: nat, v: nat, overflow: bool) {
    v == Value(ds, base) % WORD && (overflow <==> Value(ds, base) > ULONG_MAX)
  }

  lemma ReadNothing(ds: seq<int>, base: nat)
    requires ds == []
    ensures Reading(ds, base, 0, false) && AllDigits(ds, base)
  {
  }

  lemma ReadStep(ds: seq<int>, c: int, base: nat, v: nat, overflow: bool, v': nat, over': bool)
    requires Reading(ds, base, v, overflow) && 2 <= base <= 36
    requires v' == (v * base + Digit(c)) % WORD && (over' <==> v * base + Digit(c) > ULONG_MAX)
    ensures Reading(ds + [c], base, v', overflow || over')
    ensures AllDigits(ds, base) && Digit(c) < base ==> AllDigits(ds + [c], base)
  {
    assert (ds + [c])[..|ds|] == ds;
    Accumulate(Value(ds, base), base, Digit(c), v, overflow);
  }

  // Working modulo 2^32 loses nothing but the overflow, and that stays noticed.
  lemma Accumulate(total: nat, base: nat, d: nat, v: nat, overflow: bool)
    requires v == total % WORD && (overflow <==> total > ULONG_MAX) && base >= 2
    ensures (total * base + d) % WORD == (v * base + d) % WORD
    ensures total * base + d > ULONG_MAX <==> overflow || v * base + d > ULONG_MAX
  {
    var q := total / WORD;
    assert (q * WORD + v) * base == (q * base) * WORD + v * base;
    ModuloShift(v * base + d, q * base);
    if overflow {
      Grows(total, base);
    }
  }

  lemma Grows(a: nat, b: nat)
    requires b >= 2
    ensures a * b >= a
  {
  }

  lemma ModuloShift(a: nat, k: nat)
    ensures (k * WORD + a) % WORD == a % WORD
  {
    ModuloIs(k * WORD + a, WORD, k + a / WORD, a % WORD);
  }

  // ----- the digits found are the longest numeral

  /** u[skip..e] is a maximal run of digits of base b. */
  ghost predicate Run(u: seq<int>, skip: int, b: int, e: int) {
    0 <= skip <= e <= |u| && AllDigits(u[skip..e], b) && (e < |u| ==> Digit(u[e]) >= b)
  }

  /** How the source reads the prefix of u. */
  function Scanned(u: seq<int>, base: int): (int, int) {
    if (base == 0 || base == 16) && |u| >= 3 && u[0] == '0' as int && IsX(u[1]) && Digit(u[2]) < 16 then (2, 16)
    else if base != 0 then (0, base)
    else if |u| >= 1 && u[0] == '0' as int then (0, 8)
    else (0, 10)
  }

  lemma RunIsNumeral(u: seq<int>, base: int, e: int)
    requires ValidBase(base) && Run(u, Scanned(u, base).0, Scanned(u, base).1, e) && e > 0
    ensures IsNumeral(u[..e], base) && Notation(u[..e], base) == Scanned(u, base)
  {
  }

  lemma NothingLonger(u: seq<int>, base: int, e: int, m: int)
    requires ValidBase(base) && Run(u, Scanned(u, base).0, Scanned(u, base).1, e) && e < m <= |u|
    ensures !IsNumeral(u[..m], base)
  {
    var t := u[..m];
    var (skip, b) := Notation(t, base);
    if (skip, b) == Scanned(u, base) {
      if skip <= m {
        assert t[skip..][e - skip] == u[e];
      }
    } else if m >= 3 {
      assert skip == 2 ==> t[skip..][0] == u[2];
    }
  }

  lemma RunInside(u: seq<int>, base: int, e: int)
    requires Run(u, Scanned(u, base).0, Scanned(u, base).1, e)
    ensures 0 <= e <= |u| && (e == 0 ==> Scanned(u, base).0 == 0)
  {
  }

  lemma EmptyIsNoNumeral(base: int)
    ensures !IsNumeral([], base)
  {
  }

  /** The subject of t, whose sign has been taken off and whose numeral ends at e. */
  lemma FoundSubject(t: seq<int>, base: int, e: int)
    requires ValidBase(base)
    requires var u := t[SignLength(t)..]; Run(u, Scanned(u, base).0, Scanned(u, base).1, e)
    ensures e > 0 ==> LongestSubject(t, base, SignLength(t) + e) && HasSubject(t, base)
    ensures e == 0 ==> !HasSubject(t, base)
  {
    hide Run, Scanned, IsNumeral;
    var k := SignLength(t);
    var u := t[k..];
    forall m | k <= m <= |t|
      ensures SignLength(t[..m]) == (if m == 0 then 0 else k) && t[..m][k..] == u[..m - k]
    {
    }
    RunInside(u, base, e);
    if e > 0 {
      RunIsNumeral(u, base, e);
      assert IsSubject(t[..k + e], base);
    }
    forall m | k + e < m <= |t|
      ensures !IsSubject(t[..m], base)
    {
      NothingLonger(u, base, e, m - k);
    }
    if e == 0 {
      forall m | 0 <= m <= |t|
        ensures !IsSubject(t[..m], base)
      {
        EmptyIsNoNumeral(base);
        assert m <= k ==> t[..m][SignLength(t[..m])..] == [];
      }
    }
  }

  lemma FrontOfTail(t: seq<int>, k: nat, e: nat)
    requires k + e <= |t|
    ensures t[..k + e][k..] == t[k..][..e]
  {
  }

  lemma FoundMagnitude(t: seq<int>, base: int, e: int)
    requires ValidBase(base) && e > 0
    requires var u := t[SignLength(t)..]; Run(u, Scanned(u, base).0, Scanned(u, base).1, e)
    ensures var u := t[SignLength(t)..];
            var (skip, b) := Scanned(u, base);
            Magnitude(t[..SignLength(t) + e], base) == Value(u[skip..e], b)
  {
    var k := SignLength(t);
    var u := t[k..];
    var t' := t[..k + e];
    FrontOfTail(t, k, e);
    assert SignLength(t') == k;
    RunIsNumeral(u, base, e);
    assert u[..e][Scanned(u, base).0..] == u[Scanned(u, base).0..e];
  }

  // ----- the functions

  /** What strtoul makes of the subject: its value modulo sign, or ULONG_MAX. */
  function UnsignedValue(t: seq<int>, base: int): nat
    requires ValidBase(base)
  {
    var v: int := Magnitude(t, base);
    if v > ULONG_MAX then ULONG_MAX else if Negative(t) then Unsigned(-v) else v
  }

  /** What strtol makes of it: the signed value, clamped. */
  function SignedValue(t: seq<int>, base: int): int
    requires ValidBase(base)
  {
    var m: int := Magnitude(t, base);
    var v := if Negative(t) then -m else m;
    if v > LONG_MAX then LONG_MAX else if v < LONG_MIN then LONG_MIN else v
  }

  /** The longest subject after the blanks, if there is one, ends at `end` and has the value r; otherwise both are 0. */
  ghost predicate MeansUnsigned(s: seq<int>, base: int, r: nat, end: int)
    requires ValidBase(base)
  {
    var k := Blanks(s);
    if HasSubject(s[k..], base)
    then LongestSubject(s[k..], base, end - k) && r == UnsignedValue(s[k..end], base)
    else r == 0 && end == 0
  }

  ghost predicate MeansSigned(s: seq<int>, base: int, r: int, end: int)
    requires ValidBase(base)
  {
    var k := Blanks(s);
    if HasSubject(s[k..], base)
    then LongestSubject(s[k..], base, end - k) && r == SignedValue(s[k..end], base)
    else r == 0 && end == 0
  }

  /** The same for a string without blanks before it. */
  ghost predicate UnsignedHere(t: seq<int>, base: int, r: nat, n: int)
    requires ValidBase(base)
  {
    if HasSubject(t, base) then LongestSubject(t, base, n) && r == UnsignedValue(t[..n], base) else r == 0 && n == 0
  }

  /** After the sign strtoul has read the digits up to e. */
  ghost predicate Found(u: seq<int>, base: int, e: int, v: nat, overflow: bool)
    requires ValidBase(base)
  {
    var (skip, b) := Scanned(u, base);
    Run(u, skip, b, e) && Reading(u[skip..e], b, v, overflow)
  }

  lemma FoundAt(s: seq<int>, base: int, orig: nat, first: nat, b: int, nptr: nat, v: nat, overflow: bool)
    requires ValidBase(base) && 0 <= b && orig <= first <= nptr <= |s| && (first - orig, b) == Scanned(s[orig..], base)
    requires AllDigits(s[first..nptr], b) && (nptr < |s| ==> Digit(s[nptr]) >= b)
    requires Reading(s[first..nptr], b, v, overflow)
    ensures Found(s[orig..], base, nptr - orig, v, overflow)
  {
    hide Scanned, Reading, AllDigits, Digit;
    assert s[orig..][first - orig..nptr - orig] == s[first..nptr];
  }

  function Answer(neg: bool, v: nat, overflow: bool): nat {
    if overflow then ULONG_MAX else if neg then Unsigned(-(v as int)) else v
  }

  // What strtoul has found makes up its answer.
  lemma UnsignedAnswer(t: seq<int>, base: int, e: int, v: nat, overflow: bool)
    requires ValidBase(base)
    requires Found(t[SignLength(t)..], base, e, v, overflow)
    ensures e == 0 ==> UnsignedHere(t, base, 0, 0) && v == 0 && !overflow
    ensures e > 0 ==> UnsignedHere(t, base, Answer(Negative(t), v, overflow), SignLength(t) + e)
  {
    hide HasSubject, LongestSubject, Magnitude, Scanned, IsSubject, Run, Unsigned, Value;
    RunInside(t[SignLength(t)..], base, e);
    FoundSubject(t, base, e);
    if e == 0 {
      NothingRead(t[SignLength(t)..], base, v, overflow);
    } else {
      FoundMagnitude(t, base, e);
      assert Negative(t[..SignLength(t) + e]) == Negative(t);
    }
  }

  lemma NothingRead(u: seq<int>, base: int, v: nat, overflow: bool)
    requires ValidBase(base) && Found(u, base, 0, v, overflow)
    ensures v == 0 && !overflow
  {
    hide Scanned;
  }

  lemma UnsignedFromHere(s: seq<int>, t: seq<int>, base: int, k: nat, r: nat, n: int)
    requires ValidBase(base) && k == Blanks(s) && t == s[k..] && UnsignedHere(t, base, r, n)
    ensures n > 0 ==> MeansUnsigned(s, base, r, k + n)
    ensures n == 0 && r == 0 ==> MeansUnsigned(s, base, r, 0)
  {
    hide IsSpace, UnsignedValue, HasSubject, IsSubject, Blanks;
    if HasSubject(t, base) {
      LongestIsNotEmpty(t, base, n);
      assert t[..n] == s[k..k + n];
    }
  }

  lemma UnsignedAnswerAt(s: seq<int>, t: seq<int>, base: int, k: nat, orig: nat, nptr: nat, v: nat, overflow: bool)
    requires ValidBase(base) && k == Blanks(s) && t == s[k..] && orig == k + SignLength(t) && orig <= nptr <= |s|
    requires Found(t[SignLength(t)..], base, nptr - orig, v, overflow)
    ensures nptr == orig ==> MeansUnsigned(s, base, 0, 0) && v == 0 && !overflow
    ensures nptr > orig ==> MeansUnsigned(s, base, Answer(Negative(t), v, overflow), nptr)
  {
    hide *;
    var e, r := nptr - orig, Answer(Negative(t), v, overflow);
    UnsignedAnswer(t, base, e, v, overflow);
    if e == 0 {
      UnsignedFromHere(s, t, base, k, 0, 0);
    } else {
      UnsignedFromHere(s, t, base, k, r, nptr - k);
    }
  }

  lemma AfterSign(s: seq<int>, t: seq<int>, orig: nat)
    requires t == s[Blanks(s)..] && orig == Blanks(s) + SignLength(t)
    ensures t[SignLength(t)..] == s[orig..]
  {
    hide *;
  }

  /** The prefix part: the position of the first digit and the base, given the base asked for. */
  method ScanPrefix(s: CString, start: nat, base: int) returns (nptr: nat, b: int)
    requires start <= |s| && ValidBase(base)
    ensures (nptr - start, b) == Scanned(s[start..], base) && start <= nptr <= |s| && 2 <= b <= 36
  {
    nptr, b := start, base;
    if (base == 16 || base == 0) && Char(s, start) == '0' as int {
      if base == 0 {
        b := 8;
      }
      if Char(s, start + 1) == 'x' as int || Char(s, start + 1) == 'X' as int {
        if start + 2 < |s| {
          CharacterTests(s[start + 2]);
        }
        if IsXDigit(Char(s, start + 2)) {
          nptr, b := start + 2, 16;
        }
      }
    } else if base == 0 {
      b := 10;
    }
  }

  /** The digit loop. */
  method ScanDigits(s: CString, start: nat, base: int) returns (nptr: nat, v: nat, overflow: bool)
    requires start <= |s| && 2 <= base <= 36
    ensures start <= nptr <= |s| && AllDigits(s[start..nptr], base) && (nptr < |s| ==> Digit(s[nptr]) >= base)
    ensures Reading(s[start..nptr], base, v, overflow)
  {
    hide Reading, Digit, Decode, AllDigits;
    ReadNothing(s[start..start], base);
    nptr, v, overflow := start, 0, false;
    while nptr < |s|
      invariant start <= nptr <= |s| && AllDigits(s[start..nptr], base)
      invariant v <= ULONG_MAX && Reading(s[start..nptr], base, v, overflow)
    {
      CharacterTests(s[nptr]);
      var c := Decode(s[nptr]);
      if c >= base {
        break;
      }
      var next, over := AddDigit(v, base, c);
      assert s[start..nptr + 1] == s[start..nptr] + [s[nptr]];
      ReadStep(s[start..nptr], s[nptr], base, v, overflow, next, over);
      v, overflow := next, overflow || over;
      nptr := nptr + 1;
    }
  }

  /** strtoul; *endptr is a position in s and keeps its value end0 if the base is refused. */
  method Strtoul(s: CString, end0: int, base: int) returns (r: nat, end: int)
    requires LONG_MIN <= base <= LONG_MAX
    ensures !ValidBase(base) ==> r == 0 && end == end0
    ensures ValidBase(base) ==> MeansUnsigned(s, base, r, end)
  {
    hide Blanks, IsSpace, Scanned, Reading, MeansUnsigned, Found, AllDigits, Digit;
    var nptr := SkipBlanks(s);
    ghost var t := s[nptr..];
    var neg := false;
    if Char(s, nptr) == '-' as int {
      neg, nptr := true, nptr + 1;
    } else if Char(s, nptr) == '+' as int {
      nptr := nptr + 1;
    }
    assert nptr == Blanks(s) + SignLength(t) && neg == Negative(t);
    var orig := nptr;
    if base != 0 && Unsigned(base - 2) > 34 {
      return 0, end0;
    }
    var b, v, overflow;
    nptr, b := ScanPrefix(s, orig, base);
    ghost var first := nptr;
    nptr, v, overflow := ScanDigits(s, nptr, b);
    FoundAt(s, base, orig, first, b, nptr, v, overflow);
    AfterSign(s, t, orig);
    UnsignedAnswerAt(s, t, base, Blanks(s), orig, nptr, v, overflow);
    if nptr == orig {
      nptr, v := 0, 0;
    }
    end := nptr;
    if overflow {
      return ULONG_MAX, end;
    }
    return if neg then Unsigned(-(v as int)) else v, end;
  }

  method SkipBlanks(s: CString) returns (nptr: nat)
    ensures nptr == Blanks(s)
  {
    nptr := 0;
    while nptr < |s| && IsSpace(s[nptr])
      invariant nptr <= |s| && Blanks(s) == nptr + Blanks(s[nptr..])
    {
      assert s[nptr..][1..] == s[nptr + 1..];
      nptr := nptr + 1;
    }
  }

  // ----- the sign that strtol takes itself

  // t is '-' and a numeral: the same numeral stands alone after the sign.
  lemma AfterMinus(t: seq<int>, base: int, m: int)
    requires |t| >= 2 && t[0] == '-' as int && Digit(t[1]) < 36 && 1 <= m <= |t| && ValidBase(base)
    ensures IsSubject(t[..m], base) <==> IsSubject(t[1..][..m - 1], base)
    ensures Magnitude(t[..m], base) == Magnitude(t[1..][..m - 1], base)
  {
    var w := t[1..][..m - 1];
    assert t[..m][1..] == w;
    assert SignLength(w) == 0 && w[0..] == w;
  }

  lemma SubjectAfterMinus(t: seq<int>, base: int)
    requires |t| >= 2 && t[0] == '-' as int && Digit(t[1]) < 36 && ValidBase(base)
    ensures HasSubject(t, base) <==> HasSubject(t[1..], base)
    ensures forall n :: LongestSubject(t[1..], base, n) ==>
                          LongestSubject(t, base, n + 1) && Magnitude(t[..n + 1], base) == Magnitude(t[1..][..n], base)
  {
    forall m | 1 <= m <= |t|
      ensures IsSubject(t[..m], base) <==> IsSubject(t[1..][..m - 1], base)
      ensures Magnitude(t[..m], base) == Magnitude(t[1..][..m - 1], base)
    {
      AfterMinus(t, base, m);
    }
    EmptyIsNoNumeral(base);
    if n :| 0 <= n <= |t| && IsSubject(t[..n], base) {
      assert n >= 1;
      assert IsSubject(t[1..][..n - 1], base);
    }
    if n :| 0 <= n <= |t[1..]| && IsSubject(t[1..][..n], base) {
      assert t[1..][..n] == t[1..][..(n + 1) - 1];
      assert IsSubject(t[..n + 1], base);
    }
    forall n | LongestSubject(t[1..], base, n)
      ensures LongestSubject(t, base, n + 1) && Magnitude(t[..n + 1], base) == Magnitude(t[1..][..n], base)
    {
      AfterMinus(t, base, n + 1);
    }
  }

  lemma NoSpace(c: int)
    requires Digit(c) < 36
    ensures !IsSpace(c)
  {
  }

  lemma LongestIsNotEmpty(t: seq<int>, base: int, n: int)
    requires LongestSubject(t, base, n) && ValidBase(base)
    ensures 0 < n <= |t|
  {
  }

  function Clamped(v: nat, neg: bool): int {
    if v >= ABS_LONG_MIN then (if neg then LONG_MIN else LONG_MAX) else if neg then -(v as int) else v
  }

  ghost predicate SignedHere(t: seq<int>, base: int, r: int, n: int)
    requires ValidBase(base)
  {
    if HasSubject(t, base) then n > 0 && LongestSubject(t, base, n) && r == SignedValue(t[..n], base)
    else r == 0 && n == 0
  }

  lemma UnsignedTail(s: seq<int>, i: nat, base: int, r: nat, n: int)
    requires ValidBase(base) && i <= |s| && (i < |s| ==> !IsSpace(s[i])) && MeansUnsigned(s[i..], base, r, n)
    ensures UnsignedHere(s[i..], base, r, n) && n >= 0
  {
  }

  lemma SignedTail(s: seq<int>, base: int, r: int, n: int)
    requires ValidBase(base) && SignedHere(s[Blanks(s)..], base, r, n)
    ensures MeansSigned(s, base, r, if n == 0 then 0 else Blanks(s) + n)
  {
    hide IsSpace, HasSubject, SignedValue, IsSubject, Blanks;
    var k := Blanks(s);
    var t := s[k..];
    if HasSubject(t, base) {
      assert t[..n] == s[k..k + n];
    }
  }

  // strtol has taken a minus sign; strtoul has read what follows.
  lemma SignedAfterMinus(t: seq<int>, base: int, v: nat, e: int)
    requires ValidBase(base) && |t| >= 2 && t[0] == '-' as int && Digit(t[1]) < 36
    requires UnsignedHere(t[1..], base, v, e)
    ensures SignedHere(t, base, Clamped(v, true), if e == 0 then 0 else e + 1)
  {
    hide HasSubject, LongestSubject, Magnitude, IsSubject, Unsigned;
    SubjectAfterMinus(t, base);
    if HasSubject(t[1..], base) {
      LongestIsNotEmpty(t[1..], base, e);
      assert t[1..][..e][0] == t[1];
    }
  }

  // strtol has taken no sign; strtoul has read everything after the blanks.
  lemma SignedWithoutMinus(t: seq<int>, base: int, v: nat, e: int)
    requires ValidBase(base) && (Negative(t) && |t| >= 2 ==> Digit(t[1]) == 36)
    requires UnsignedHere(t, base, v, e)
    ensures SignedHere(t, base, Clamped(v, false), e)
  {
  }

  // strtoul's answer at nptr, after the blanks and the minus sign taken, makes up strtol's.
  lemma SignedAnswer(s: seq<int>, base: int, neg: bool, v: nat, e: int)
    requires ValidBase(base)
    requires neg <==> Blanks(s) + 1 < |s| && s[Blanks(s)] == '-' as int && Digit(s[Blanks(s) + 1]) < 36
    requires MeansUnsigned(s[Blanks(s) + (if neg then 1 else 0)..], base, v, e)
    ensures MeansSigned(s, base, Clamped(v, neg), if e == 0 then 0 else Blanks(s) + (if neg then 1 else 0) + e)
  {
    hide MeansUnsigned, MeansSigned, UnsignedHere, SignedHere, Clamped, IsSpace, Digit, Blanks;
    var k := Blanks(s);
    var t := s[k..];
    if neg {
      NoSpace(s[k + 1]);
      UnsignedTail(s, k + 1, base, v, e);
      assert t[1..] == s[k + 1..];
      SignedAfterMinus(t, base, v, e);
      SignedTail(s, base, Clamped(v, neg), if e == 0 then 0 else e + 1);
    } else {
      UnsignedTail(s, k, base, v, e);
      assert |t| >= 2 ==> t[1] == s[k + 1];
      DigitsEnd(s, k + 1);
      SignedWithoutMinus(t, base, v, e);
      SignedTail(s, base, Clamped(v, neg), e);
    }
  }

  lemma DigitsEnd(s: seq<int>, i: nat)
    ensures i < |s| && !(Digit(s[i]) < 36) ==> Digit(s[i]) == 36
  {
  }

  /** strtol */
  method Strtol(s: CString, end0: int, base: int) returns (r: int, end: int)
    requires LONG_MIN <= base <= LONG_MAX
    ensures !ValidBase(base) ==> r == 0 && (end == end0 || end == 0)
    ensures ValidBase(base) ==> MeansSigned(s, base, r, end)
  {
    hide MeansUnsigned, MeansSigned, IsAlnum, Digit, Blanks;
    var nptr := SkipBlanks(s);
    if nptr + 1 < |s| {
      CharacterTests(s[nptr + 1]);
    } else {
      CharacterTests(0);
    }
    var neg := false;
    if Char(s, nptr) == '-' as int && IsAlnum(Char(s, nptr + 1)) {
      neg, nptr := true, nptr + 1;
    }
    var v, e := Strtoul(s[nptr..], end0 - nptr, base);
    end := e + nptr;
    if ValidBase(base) {
      SignedAnswer(s, base, neg, v, e);
    }
    if end == nptr {
      end := 0;
    }
    if v >= ABS_LONG_MIN {
      if v == ABS_LONG_MIN && neg {
        return LONG_MIN, end;  // v read as a signed word
      }
      return if neg then LONG_MIN else LONG_MAX, end;
    }
    return if neg then -v else v, end;
  }
}
