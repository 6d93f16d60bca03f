/** What flonum_multip makes of factors in normal form (cctools/as/flonum-mult.c): their product is in normal form
    again, or it is lost altogether, and exactly when. */
module NormalForm {
  import opened Arith
  import opened Bignum
  import opened Multiply

  /** The columns never add up to more than the product. */
  lemma LastSum(a: seq<Littlenum>, b: seq<Littlenum>, m: nat)
    requires m + 2 == |a| + |b|
    ensures CarryInto(a, b, m) + Column(a, b, m) < WORD
  {
    hide Column, Columns, Digits, Nat, RPow, Lost, CarryInto, AllZero;
    ColumnsConserved(a, b, m);
    ColumnsStep(a, b, m);
    ColumnsAreProduct(a, b, m + 1);
    ProductBound(a, b);
    RPowStep(m);
    RPowStep(m + 1);
    SmallSum(CarryInto(a, b, m), Column(a, b, m), RPow(m), Columns(a, b, m + 1));
  }

  /** So the last column never wraps. */
  lemma LastColumnKept(a: seq<Littlenum>, b: seq<Littlenum>)
    requires Normal(a) && Normal(b)
    ensures Total(a, b, |a| + |b| - 2) >= 1
  {
    var m := |a| + |b| - 2;
    LastColumn(a, b);
    MulAtLeast(a[|a|-1], b[|b|-1]);
    FirstProductIsPart(a, b, m);
    LastSum(a, b, m);
    hide Column, CarryInto, FirstProduct;
  }

  lemma SmallSum(carry: nat, column: nat, p: nat, product: nat)
    requires carry * p + column * p <= product < RADIX * (RADIX * p)
    ensures carry + column < WORD
  {
    if carry + column >= WORD {
      MulMonotone(WORD, carry + column, p);
    }
  }

  lemma ColumnsStep(a: seq<Littlenum>, b: seq<Littlenum>, m: nat)
    ensures Columns(a, b, m + 1) == Columns(a, b, m) + Column(a, b, m) * RPow(m)
  {
  }

  lemma {:induction false} LastColumn(a: seq<Littlenum>, b: seq<Littlenum>)
    requires a != [] && b != []
    ensures Column(a, b, |a| + |b| - 2) == a[|a|-1] as int * b[|b|-1]
  {
    if |a| > 1 {
      LastColumn(a[1..], b);
    }
  }

  /** So a product that is not lost has a leader other than zero. */
  lemma TopIsLarge(a: seq<Littlenum>, b: seq<Littlenum>, n: nat)
    requires Normal(a) && Normal(b) && n == |a| + |b| - 1
    ensures CarryInto(a, b, n) == 0 ==> Normal(Digits(a, b, n))
  {
    LastColumnKept(a, b);
    var total := Total(a, b, n - 1);
    assert CarryInto(a, b, n) == total / RADIX;
    assert Digits(a, b, n) == Digits(a, b, n - 1) + [total % RADIX];
  }

  // ---------------------------------------------------------------- products that vanish

  /** No product of two numbers that are not multiples of 2^m and of 2^n is a multiple of 2^(m + n). */
  lemma {:induction false} NoMultiple(x: nat, y: nat, m: nat, n: nat)
    requires x % Pow2(m) != 0 && y % Pow2(n) != 0
    ensures (x * y) % Pow2(m + n) != 0
    decreases m + n
  {
    hide Pow, Pow2;
    AnyMultiple(x);
    AnyMultiple(y);
    Pow2Twice(m - 1);
    Pow2Twice(n - 1);
    Pow2Twice(m + n - 1);
    if x % 2 == 0 {
      HalfIsNoMultiple(x / 2, Pow2(m - 1));
      NoMultiple(x / 2, y, m - 1, n);
      MulAssoc(2, x / 2, y);
      TwiceIsNoMultiple(x / 2 * y, Pow2(m + n - 1));
    } else if y % 2 == 0 {
      HalfIsNoMultiple(y / 2, Pow2(n - 1));
      NoMultiple(x, y / 2, m, n - 1);
      Halved(x, y);
      TwiceIsNoMultiple(x * (y / 2), Pow2(m + n - 1));
    } else {
      OddIsNoMultiple(x, y, Pow2(m + n - 1));
    }
  }

  lemma Halved(x: nat, y: nat)
    requires y % 2 == 0
    ensures x * y == 2 * (x * (y / 2))
  {
    assert y == 2 * (y / 2);
  }

  lemma AnyMultiple(x: nat)
    ensures x % Pow2(0) == 0
  {
    assert Pow2(0) == 1;
  }

  lemma HalfIsNoMultiple(x: nat, p: nat)
    requires p > 0 && (2 * x) % (2 * p) != 0
    ensures x % p != 0
  {
    if x % p == 0 {
      assert 2 * x == x / p * (2 * p);
      ModOfMultiple(x / p, 2 * p);
    }
  }

  lemma TwiceIsNoMultiple(x: nat, p: nat)
    requires p > 0 && x % p != 0
    ensures (2 * x) % (2 * p) != 0
  {
    var q, r := x / p, x % p;
    assert x == q * p + r;
    assert 2 * x == q * (2 * p) + 2 * r;
    DivModUnique(2 * x, 2 * p, q, 2 * r);
  }

  lemma OddIsNoMultiple(x: nat, y: nat, p: nat)
    requires x % 2 == 1 && y % 2 == 1 && p > 0
    ensures (x * y) % (2 * p) != 0
  {
    assert x * y == 2 * (x / 2 * y + y / 2) + 1;
    var q, r := x * y / (2 * p), (x * y) % (2 * p);
    assert x * y == 2 * (p * q) + r;
  }

  /** Below the lowest column that holds a product there is nothing. */
  lemma {:induction false} EmptyColumn(a: seq<Littlenum>, b: seq<Littlenum>, n: nat)
    requires n < LowZeros(a) + LowZeros(b)
    ensures Column(a, b, n) == 0
    decreases a
  {
    if a != [] {
      if n < LowZeros(b) {
        assert b[..LowZeros(b)][n] == b[n];
      }
      if n > 0 && (a[0] == 0 || n <= LowZeros(b)) {
        EmptyColumn(a[1..], b, n - 1);
      }
    }
  }

  lemma {:induction false} NothingYet(a: seq<Littlenum>, b: seq<Littlenum>, n: nat)
    requires n <= LowZeros(a) + LowZeros(b)
    ensures CarryInto(a, b, n) == 0 && Wraps(a, b, n) == 0 && Lost(a, b, n) == 0
  {
    if n > 0 {
      hide Column, FirstProduct, LowZeros;
      NothingYet(a, b, n - 1);
      EmptyColumn(a, b, n - 1);
    }
    OneProduct(a, b, n);
  }

  lemma OneProduct(a: seq<Littlenum>, b: seq<Littlenum>, n: nat)
    ensures FirstProduct(a, b, n) < WORD
  {
    var i := if n < |b| then 0 else n - |b| + 1;
    if i < |a| && 0 <= n - i < |b| {
      TopProduct(a[i], b[n - i]);
    }
  }

  lemma {:induction false} LaterColumns(a: seq<Littlenum>, b: seq<Littlenum>, m: nat, n: nat) returns (q: nat)
    requires m <= n
    ensures Columns(a, b, n) == Columns(a, b, m) + RPow(m) * q
  {
    q := 0;
    if m < n {
      hide Column, RPow;
      var q' := LaterColumns(a, b, m, n - 1);
      RPowAdd(m, n - 1 - m);
      q := q' + Column(a, b, n - 1) * RPow(n - 1 - m);
      Gathered(RPow(m), q', Column(a, b, n - 1), RPow(n - 1 - m));
    }
  }

  lemma Gathered(p: nat, q: nat, column: nat, r: nat)
    ensures p * q + column * (p * r) == p * (q + column * r)
  {
  }

  lemma {:induction false} DigitsPrefix(a: seq<Littlenum>, b: seq<Littlenum>, m: nat, n: nat)
    requires m <= n
    ensures Digits(a, b, n)[..m] == Digits(a, b, m)
  {
    if m < n {
      DigitsPrefix(a, b, m, n - 1);
    }
  }

  /** A number is its part above the low zeros, moved up. */
  lemma AboveZeros(s: seq<Littlenum>)
    requires LowZeros(s) < |s|
    ensures Nat(s) == RPow(LowZeros(s)) * Nat(s[LowZeros(s)..])
    ensures Nat(s[LowZeros(s)..]) % RADIX != 0
  {
    var k := LowZeros(s);
    LowestLittlenum(s[k..]);
    NatZero(s[..k]);
    ZerosBelow(s, k);
  }

  lemma ZerosBelow(s: seq<Littlenum>, k: nat)
    requires k <= |s| && Nat(s[..k]) == 0
    ensures Nat(s) == RPow(k) * Nat(s[k..])
  {
    hide Nat, RPow;
    assert s == s[..k] + s[k..];
    NatConcat(s[..k], s[k..]);
  }

  lemma LowestLittlenum(s: seq<Littlenum>)
    requires s != []
    ensures Nat(s) % RADIX == s[0]
  {
    DivModUnique(Nat(s), RADIX, Nat(s[1..]), s[0]);
  }

  /** Of the two lowest columns that can hold anything one does, when there are as many. */
  lemma SomeDigit(a: seq<Littlenum>, b: seq<Littlenum>, n: nat)
    requires LowZeros(a) < |a| && LowZeros(b) < |b|
    requires LowZeros(a) + LowZeros(b) + 2 <= n
    ensures !AllZero(Digits(a, b, n))
  {
    hide Column, Digits, CarryInto, Wraps, LowZeros, Nat, RPow;
    var low := LowZeros(a) + LowZeros(b);
    var m := low + 2;
    if AllZero(Digits(a, b, n)) {
      DigitsPrefix(a, b, m, n);
      assert AllZero(Digits(a, b, m));
      NatZero(Digits(a, b, m));
      ColumnsConserved(a, b, m);
      NothingYet(a, b, low);
      var w := Wraps(a, b, low + 1);
      var all := |a| + |b| + n;
      ColumnsAreProduct(a, b, all);
      var q := LaterColumns(a, b, m, all);
      AboveZeros(a);
      AboveZeros(b);
      var x, y := Nat(a[LowZeros(a)..]), Nat(b[LowZeros(b)..]);
      LostSoFar(a, b, low);
      RPowAdd(LowZeros(a), LowZeros(b));
      RPowStep(low);
      RPowStep(low + 1);
      Cancelled(RPow(low), RPow(LowZeros(a)), RPow(LowZeros(b)), x, y, CarryInto(a, b, m), w, q);
      Pow2Words();
      NoMultiple(x, y, 16, 16);
    }
  }

  lemma LostSoFar(a: seq<Littlenum>, b: seq<Littlenum>, low: nat)
    requires Lost(a, b, low) == 0 && Wraps(a, b, low) == 0
    ensures Lost(a, b, low + 2) == WORD * Wraps(a, b, low + 1) * RPow(low + 1)
  {
    assert Lost(a, b, low + 1) == 0;
  }

  lemma Cancelled(p: nat, s: nat, t: nat, x: nat, y: nat, carry: nat, w: nat, q: nat)
    requires p == s * t && p > 0
    requires (s * x) * (t * y) == (carry * (RADIX * (RADIX * p)) + WORD * w * (RADIX * p)) + (RADIX * (RADIX * p)) * q
    ensures (x * y) % WORD == 0
  {
    var k := carry + RADIX * w + q;
    assert (s * x) * (t * y) == p * (x * y);
    assert p * (x * y) == p * (WORD * k);
    Same(p, x * y, WORD * k);
    ModOfMultiple(k, WORD);
  }

  lemma Same(p: nat, x: nat, y: nat)
    requires p > 0 && p * x == p * y
    ensures x == y
  {
    if x < y {
      MulStrict(p, x, y);
    } else if y < x {
      MulStrict(p, y, x);
    }
  }

  /** All but the highest littlenum are zero. */
  predicate IsLone(s: seq<Littlenum>)
    requires s != []
  {
    AllZero(s[..|s|-1])
  }

  /** Factors in normal form give a product in normal form, whatever wraps. Only when each factor is a single littlenum
      followed by zeros, the two multiply to a multiple of the radix, and the buffer is less than half as long as the
      factors, does the code lose the one carry that is left, and leaves zero. */
  lemma ProductNormal(a: seq<Littlenum>, b: seq<Littlenum>, capacity: nat)
    requires capacity > 0 && Normal(a) && Normal(b)
    ensures var s := ProductOf(a, b, capacity).littlenums;
      && (s == [] || Normal(s))
      && (s == [] <==> |a| + |b| > 2 * capacity && IsLone(a) && IsLone(b) && (a[|a|-1] * b[|b|-1]) % RADIX == 0)
  {
    hide Fit, Column, Wraps;
    var n := |a| + |b| - 1;
    ComputedProduct(a, b, n);
    TopIsLarge(a, b, n);
    FitNormal(Digits(a, b, n), CarryInto(a, b, n), capacity);
    LoneZeros(a);
    LoneZeros(b);
    var low := LowZeros(a) + LowZeros(b);
    if low + 2 <= n {
      SomeDigit(a, b, n);
    } else {
      assert low == n - 1;
      LoneProduct(a, b, n);
    }
  }

  lemma TopIsNotZero(s: seq<Littlenum>)
    requires Normal(s)
    ensures !AllZero(s[..|s|])
  {
    assert s[..|s|][|s|-1] != 0;
  }

  lemma LoneZeros(s: seq<Littlenum>)
    requires Normal(s)
    ensures LowZeros(s) <= |s| - 1
    ensures LowZeros(s) == |s| - 1 <==> IsLone(s)
  {
    var k := LowZeros(s);
    if k < |s| - 1 {
      assert s[..|s|-1][k] == s[k];
    }
    TopIsNotZero(s);
  }

  /** All that such factors put out is the one product at the top. */
  lemma LoneProduct(a: seq<Littlenum>, b: seq<Littlenum>, n: nat)
    requires Normal(a) && Normal(b) && n == |a| + |b| - 1 && LowZeros(a) + LowZeros(b) == n - 1
    ensures AllZero(Digits(a, b, n)) <==> (a[|a|-1] * b[|b|-1]) % RADIX == 0
  {
    LastColumn(a, b);
    NothingYet(a, b, n - 1);
    hide Column, LowZeros, Wraps;
    assert Total(a, b, n - 1) == a[|a|-1] as int * b[|b|-1];
    NoDigits(a, b, n - 1);
    assert Digits(a, b, n) == Digits(a, b, n - 1) + [Total(a, b, n - 1) % RADIX];
    assert Digits(a, b, n)[n - 1] == Total(a, b, n - 1) % RADIX;
  }

  lemma {:induction false} NoDigits(a: seq<Littlenum>, b: seq<Littlenum>, n: nat)
    requires n <= LowZeros(a) + LowZeros(b)
    ensures AllZero(Digits(a, b, n))
  {
    if n > 0 {
      hide Column, LowZeros, Wraps;
      NoDigits(a, b, n - 1);
      NothingYet(a, b, n - 1);
      EmptyColumn(a, b, n - 1);
    }
  }

  /** The smallest way to lose a product: 2 * 2^15 at the top of a buffer of one littlenum. */
  lemma VanishingProductExample()
    ensures ProductOf([0, 0x8000], [2], 1).littlenums == []
  {
    ProductNormal([0, 0x8000], [2], 1);
  }
}
