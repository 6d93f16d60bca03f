/** Which digits make a multiplication of flonum_multip wrap with some factor, and which never do
    (cctools/as/flonum-mult.c). */
module SafeDigits {
  import opened Arith
  import opened Bignum
  import opened Multiply

  /** The largest number of six littlenums, as many as the power of ten has for a double. */
  const ONES: seq<Littlenum> := [0xffff, 0xffff, 0xffff, 0xffff, 0xffff, 0xffff]

  /** A test on the digits alone: they do not wrap with the largest factor. */
  predicate IsSafe(b: seq<Littlenum>) {
    AllLost(ONES, b) == 0
  }

  lemma {:induction false} ColumnGrows(a: seq<Littlenum>, ones: seq<Littlenum>, b: seq<Littlenum>, n: nat)
    requires |a| <= |ones| && AllOnes(ones)
    ensures Column(a, b, n) <= Column(ones, b, n)
    decreases a
  {
    if a != [] {
      if n < |b| {
        MulMonotone(a[0], ones[0], b[n]);
      }
      if n > 0 {
        ColumnGrows(a[1..], ones[1..], b, n - 1);
      }
    }
  }

  lemma FirstGrows(a: seq<Littlenum>, ones: seq<Littlenum>, b: seq<Littlenum>, n: nat)
    requires |a| <= |ones| && AllOnes(ones)
    ensures FirstProduct(a, b, n) <= FirstProduct(ones, b, n)
  {
    var i := if n < |b| then 0 else n - |b| + 1;
    if i < |a| && 0 <= n - i < |b| {
      MulMonotone(a[i], ones[i], b[n - i]);
    }
  }

  lemma QuotientGrows(x: nat, y: nat, m: nat)
    requires x <= y && m > 0
    ensures x / m <= y / m
  {
    if x / m > y / m {
      MulMonotone(y / m + 1, x / m, m);
    }
  }

  lemma NextCarry(a: seq<Littlenum>, b: seq<Littlenum>, n: nat)
    ensures CarryInto(a, b, n + 1) == (CarryInto(a, b, n) + Column(a, b, n) - WORD * Wraps(a, b, n)) / RADIX
    ensures Wraps(a, b, n) == (CarryInto(a, b, n) + FirstProduct(a, b, n)) / WORD
    ensures CarryInto(a, b, n) + Column(a, b, n) - WORD * Wraps(a, b, n) >= 0
  {
    hide Column, FirstProduct;
    assert Total(a, b, n) >= 0;
  }

  /** As long as the largest factor does not wrap, no other does, and carries are no larger. */
  lemma {:induction false} CarryGrows(a: seq<Littlenum>, ones: seq<Littlenum>, b: seq<Littlenum>, n: nat)
    requires |a| <= |ones| && AllOnes(ones) && forall k :: 0 <= k <= n ==> Wraps(ones, b, k) == 0
    ensures CarryInto(a, b, n) <= CarryInto(ones, b, n) && Wraps(a, b, n) == 0
  {
    hide Column, FirstProduct, CarryInto, Wraps;
    if n > 0 {
      CarryGrows(a, ones, b, n - 1);
      ColumnGrows(a, ones, b, n - 1);
      NextCarry(a, b, n - 1);
      NextCarry(ones, b, n - 1);
      QuotientGrows(CarryInto(a, b, n - 1) + Column(a, b, n - 1), CarryInto(ones, b, n - 1) + Column(ones, b, n - 1), RADIX);
    } else {
      NoCarryYet(a, b);
    }
    FirstGrows(a, ones, b, n);
    NextCarry(a, b, n);
    NextCarry(ones, b, n);
    QuotientGrows(CarryInto(a, b, n) + FirstProduct(a, b, n), CarryInto(ones, b, n) + FirstProduct(ones, b, n), WORD);
  }

  lemma NoCarryYet(a: seq<Littlenum>, b: seq<Littlenum>)
    ensures CarryInto(a, b, 0) == 0
  {
  }

  lemma SafeWithAny(a: seq<Littlenum>, b: seq<Littlenum>)
    requires |a| <= |ONES| && |a| + |b| > 0 && IsSafe(b)
    ensures AllLost(a, b) == 0
  {
    hide Wraps, Lost;
    LostIffWraps(ONES, b, |ONES| + |b| - 1);
    forall k | 0 <= k < |a| + |b| - 1 ensures Wraps(a, b, k) == 0 {
      CarryGrows(a, ONES, b, k);
    }
    LostIffWraps(a, b, |a| + |b| - 1);
  }

  /** The test is exact: digits that fail it wrap with some factor of six littlenums, and digits that pass it with none of
      six or fewer. */
  lemma SafeIff(b: seq<Littlenum>)
    ensures IsSafe(b) <==> forall a: seq<Littlenum> :: 0 < |a| <= 6 ==> AllLost(a, b) == 0
  {
    hide Lost;
    if IsSafe(b) {
      forall a: seq<Littlenum> | 0 < |a| <= 6 ensures AllLost(a, b) == 0 {
        SafeWithAny(a, b);
      }
    }
  }

  // ---------------------------------------------------------------- low tops

  /** The highest littlenums keep away from the radix, by a little more the more littlenums there are. */
  predicate HasLowTop(b: seq<Littlenum>) {
    || |b| <= 2
    || (|b| == 3 && b[2] <= 65534)
    || (|b| == 4 && b[3] <= 65533)
    || (|b| == 5 && b[3] <= 65534 && b[4] <= 65532)
  }

  /** The first carries grow by at most one littlenum a column. */
  lemma {:induction false} EarlyCarries(a: seq<Littlenum>, b: seq<Littlenum>, n: nat)
    ensures CarryInto(a, b, n) <= n * (RADIX - 1)
  {
    hide Column, Wraps, CarryInto;
    if n == 0 {
      NoCarryYet(a, b);
    } else {
      EarlyCarries(a, b, n - 1);
      ColumnBound(a, b, n - 1);
      NextCarry(a, b, n - 1);
      BoundedSum(CarryInto(a, b, n - 1), Column(a, b, n - 1), n, |a|, if n < |b| then n else |b|);
    }
  }

  lemma FirstBelow(a: seq<Littlenum>, b: seq<Littlenum>, n: nat, top: nat)
    requires b != [] && (if n < |b| then b[n] <= top else b[|b|-1] <= top)
    ensures FirstProduct(a, b, n) <= (RADIX - 1) * top
  {
    var i := if n < |b| then 0 else n - |b| + 1;
    if i < |a| && 0 <= n - i < |b| {
      MulMonotone(a[i], RADIX - 1, b[n - i]);
      MulMonotone(b[n - i], top, RADIX - 1);
    }
  }

  /** Low tops never wrap, whatever the factor. */
  lemma LowTopNeverWraps(a: seq<Littlenum>, b: seq<Littlenum>, n: nat)
    requires HasLowTop(b)
    ensures Wraps(a, b, n) == 0
  {
    hide CarryInto, FirstProduct;
    if |b| <= 2 {
      ShortFactorsNeverWrap(a, b, n);
    } else {
      CarryBound(a, b, n);
      EarlyCarries(a, b, n);
      FirstBelow(a, b, n, if n < |b| then b[n] else b[|b|-1]);
    }
  }

  lemma LowTopIsSafe(b: seq<Littlenum>)
    requires HasLowTop(b)
    ensures IsSafe(b)
  {
    hide Wraps, Lost;
    forall k: nat ensures Wraps(ONES, b, k) == 0 {
      LowTopNeverWraps(ONES, b, k);
    }
    LostIffWraps(ONES, b, |ONES| + |b| - 1);
  }
}
