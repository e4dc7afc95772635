/** Facts about quotients and multiples of a symbolic number. */
module Arithmetic {
  const WORD := 0x1_0000_0000  // 2^32: the number of values of a machine word

  lemma DivBounds(x: nat, p: nat)
    requires p > 0
    ensures (x / p) * p <= x < (x / p) * p + p
    ensures x - x % p == (x / p) * p
  {
  }

  lemma NextMultiple(q: int, p: int)
    ensures (q + 1) * p == q * p + p && (q - 1) * p == q * p - p
  {
  }

  lemma {:induction false} MultiplesIncrease(a: nat, b: nat, p: nat)
    requires a <= b
    ensures a * p <= b * p
    decreases b - a
  {
    if a < b {
      MultiplesIncrease(a + 1, b, p);
      NextMultiple(a, p);
    }
  }

  lemma MultiplesOrder(a: nat, b: nat, p: nat)
    requires p > 0
    ensures a <= b <==> a * p <= b * p
  {
  }

  lemma QuotientIn(x: nat, p: nat, lo: nat, hi: nat)
    requires p > 0 && lo * p <= x < hi * p
    ensures lo <= x / p < hi
  {
    var q := x / p;
    DivBounds(x, p);
    NextMultiple(q, p);
    MultiplesOrder(lo, q + 1, p);
    MultiplesOrder(hi, q, p);
    MultiplesOrder(q + 1, lo, p);
  }

  lemma ModuloIs(x: nat, p: nat, q: nat, r: nat)
    requires r < p && x == q * p + r
    ensures x / p == q && x % p == r
  {
    NextMultiple(q, p);
    QuotientIn(x, p, q, q + 1);
    DivBounds(x, p);
  }

  lemma SuccessorModulo(m: nat, n: nat)
    requires n > 0
    ensures (m + 1) % n == if m % n + 1 < n then m % n + 1 else 0
  {
    MultiplesOrder(1, n, m + 1);
    QuotientIn(m, n, 0, m + 1);
    DivBounds(m, n);
    NextMultiple(m / n, n);
    if m % n + 1 < n {
      ModuloIs(m + 1, n, m / n, m % n + 1);
    } else {
      ModuloIs(m + 1, n, m / n + 1, 0);
    }
  }
}
