/** Littlenums and the numbers that strings of them denote (cctools/as/bignum.h). */
module Bignum {
  import opened Arith

  const RADIX := 0x1_0000     // LITTLENUM_RADIX

  type Littlenum = n: nat | n < RADIX

  function RPow(e: nat): (p: nat)
    ensures p >= 1
  {
    Pow(RADIX, e)
  }

  lemma RPowZero()
    ensures RPow(0) == 1
  {
  }

  lemma RPowStep(e: nat)
    ensures RPow(e + 1) == RADIX * RPow(e)
  {
  }

  lemma RPowAdd(m: nat, n: nat)
    ensures RPow(m + n) == RPow(m) * RPow(n)
  {
    PowAdd(RADIX, m, n);
  }

  /** The number with the given littlenums, the lowest first. */
  function Nat(s: seq<Littlenum>): nat {
    if s == [] then 0 else s[0] + RADIX * Nat(s[1..])
  }

  lemma {:induction false} NatConcat(a: seq<Littlenum>, b: seq<Littlenum>)
    ensures Nat(a + b) == Nat(a) + RPow(|a|) * Nat(b)
  {
    if a == [] {
      assert a + b == b;
    } else {
      assert (a + b)[1..] == a[1..] + b;
      NatConcat(a[1..], b);
      assert RADIX * (RPow(|a| - 1) * Nat(b)) == RPow(|a|) * Nat(b);
    }
  }

  lemma NatSnoc(a: seq<Littlenum>, x: Littlenum)
    ensures Nat(a + [x]) == Nat(a) + RPow(|a|) * x
  {
    NatConcat(a, [x]);
    assert Nat([x]) == x;
  }

  /** A highest littlenum of zero adds nothing. */
  lemma NatTopZero(s: seq<Littlenum>)
    ensures Nat(s + [0]) == Nat(s)
  {
    NatSnoc(s, 0);
  }

  lemma {:induction false} NatBound(s: seq<Littlenum>)
    ensures Nat(s) < RPow(|s|)
  {
    if s != [] {
      NatBound(s[1..]);
    }
  }

  /** Dropping low littlenums is dividing and rounding down. */
  lemma NatDrop(s: seq<Littlenum>, k: nat)
    requires k <= |s|
    ensures Nat(s[k..]) == Nat(s) / RPow(k)
    ensures Nat(s[..k]) == Nat(s) % RPow(k)
  {
    hide Nat, RPow;
    assert s == s[..k] + s[k..];
    NatConcat(s[..k], s[k..]);
    NatBound(s[..k]);
    DivModUnique(Nat(s), RPow(k), Nat(s[k..]), Nat(s[..k]));
  }

  predicate AllZero(s: seq<Littlenum>) {
    forall i :: 0 <= i < |s| ==> s[i] == 0
  }

  lemma {:induction false} NatZero(s: seq<Littlenum>)
    ensures Nat(s) == 0 <==> AllZero(s)
  {
    if s != [] {
      NatZero(s[1..]);
      assert s == [s[0]] + s[1..];
    }
  }

  /** A highest littlenum other than zero keeps the number from being short. */
  lemma NatLeader(s: seq<Littlenum>)
    requires s != [] && s[|s|-1] != 0
    ensures Nat(s) >= RPow(|s| - 1)
  {
    assert s == s[..|s|-1] + [s[|s|-1]];
    NatSnoc(s[..|s|-1], s[|s|-1]);
    MulAtLeast(s[|s|-1], RPow(|s| - 1));
  }

  /** Dividing by a power and then by another is dividing by both. */
  lemma DivDiv(x: nat, m: nat, n: nat)
    requires m > 0 && n > 0
    ensures m * n > 0 && (x / m) / n == x / (m * n)
  {
    MulAtLeast(m, n);
    var q, r := x / m, x % m;
    var q', r' := q / n, q % n;
    assert x == (q' * n + r') * m + r;
    assert (q' * n + r') * m + r == q' * (m * n) + (r' * m + r);
    MulMonotone(r', n - 1, m);
    assert r' * m + r < (n - 1) * m + m == m * n;
    DivModUnique(x, m * n, q', r' * m + r);
  }
}
