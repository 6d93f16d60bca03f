/** Facts about products, quotients and powers that the solver does not find by itself. */
module Arith {

  /** A product with a factor of at least one is at least the other factor. */
  lemma MulAtLeast(a: int, b: int)
    requires a >= 1 && b >= 0
    ensures a * b >= b
  {
    assert (a - 1) * b >= 0;
  }

  lemma MulAssoc(a: int, b: int, c: int)
    ensures (a * b) * c == a * (b * c)
  {
  }

  lemma MulMonotone(a: int, b: int, c: int)
    requires a <= b && c >= 0
    ensures a * c <= b * c
  {
    assert (b - a) * c >= 0;
  }

  /** Quotient and remainder are the only pair that fits. */
  lemma DivModUnique(x: int, m: int, q: int, r: int)
    requires m > 0 && 0 <= r < m && x == q * m + r
    ensures x / m == q && x % m == r
  {
    var q', r' := x / m, x % m;
    assert x == q' * m + r';
    assert (q - q') * m == r' - r && (q' - q) * m == r - r';
    if q > q' {
      MulAtLeast(q - q', m);
    } else if q < q' {
      MulAtLeast(q' - q, m);
    }
  }

  lemma ModOfMultiple(q: int, m: int)
    requires m > 0
    ensures (q * m) % m == 0 && (q * m) / m == q
  {
    DivModUnique(q * m, m, q, 0);
  }

  function Pow(b: nat, e: nat): (p: nat)
    requires b > 0
    ensures p >= 1
  {
    if e == 0 then 1 else MulAtLeast(b, Pow(b, e - 1)); b * Pow(b, e - 1)
  }

  function Pow2(n: nat): (p: nat)
    ensures p >= 1
  {
    Pow(2, n)
  }

  lemma PowStep(b: nat, e: nat)
    requires b > 0
    ensures Pow(b, 0) == 1 && Pow(b, e + 1) == b * Pow(b, e)
  {
  }

  lemma {:induction false} PowAdd(b: nat, m: nat, n: nat)
    requires b > 0
    ensures Pow(b, m + n) == Pow(b, m) * Pow(b, n)
  {
    hide Pow;
    if m == 0 {
      PowStep(b, 0);
    } else {
      PowAdd(b, m - 1, n);
      PowStep(b, m - 1);
      PowStep(b, m - 1 + n);
      MulAssoc(b, Pow(b, m - 1), Pow(b, n));
    }
  }

  lemma Pow2Add(m: nat, n: nat)
    ensures Pow2(m + n) == Pow2(m) * Pow2(n)
  {
    PowAdd(2, m, n);
  }

  lemma Pow2Zero()
    ensures Pow2(0) == 1
  {
  }

  lemma Pow2One()
    ensures Pow2(1) == 2
  {
  }

  lemma Pow2Twice(n: nat)
    ensures Pow2(n + 1) == 2 * Pow2(n)
  {
  }

  lemma {:induction false} Pow2Monotone(m: nat, n: nat)
    requires m <= n
    ensures Pow2(m) <= Pow2(n)
  {
    hide Pow2;
    Pow2Add(m, n - m);
    MulAtLeast(Pow2(n - m), Pow2(m));
  }

  lemma Pow2Words()
    ensures Pow2(16) == 0x1_0000 && Pow2(32) == 0x1_0000_0000
  {
    assert Pow2(8) == 256;
    hide Pow2;
    Pow2Add(8, 8);
    Pow2Add(16, 16);
  }
}
