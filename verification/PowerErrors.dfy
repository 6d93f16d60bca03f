/** How near the entries of the tables of powers of ten come to the powers (cctools/as/flonum-const.c). */
module PowerErrors {
  import opened Arith
  import opened Bignum
  import opened Decimal
  import opened Nearness
  import opened PowerLoop
  import opened PowerTables
  import opened PowersOfTen

  // ---------------------------------------------------------------- how the entries were made

  lemma RadixConstants()
    ensures RPow(0) == 1 && RPow(8) == 0x100000000000000000000000000000000
    ensures RPow(20) == 0x100000000000000000000000000000000000000000000000000000000000000000000000000000000
    ensures RPow(24) == 0x1000000000000000000000000000000000000000000000000000000000000000000000000000000000000000000000000
    ensures RPow(29) == 0x100000000000000000000000000000000000000000000000000000000000000000000000000000000000000000000000000000000000000000000
    ensures RPow(30) == 0x1000000000000000000000000000000000000000000000000000000000000000000000000000000000000000000000000000000000000000000000000
  {
    hide RPow;
    RPowZero();
    RPowStep(0);
    RPowAdd(1, 1);
    RPowAdd(2, 2);
    RPowAdd(4, 4);
    RPowAdd(8, 8);
    RPowAdd(16, 4);
    RPowAdd(16, 8);
    RPowAdd(20, 8);
    RPowAdd(28, 1);
    RPowAdd(28, 2);
  }

  /** Up to 10^-64 the entries are the powers, cut off after twenty places. */
  lemma SmallNegative(place: nat)
    requires 1 <= place <= 7
    ensures Negative(place).exponent == -20
    ensures Nat(Negative(place).littlenums) == RPow(20) / Ten(Pow2(place - 1))
  {
    hide Minus1, Minus2, Minus3, Minus4, Minus5, Minus6, Minus7, Nat, RPow, Ten, Pow2, Pow;
    TenValues();
    PlaceValues();
    RadixConstants();
    match place {
      case 1 =>
      case 2 =>
      case 3 =>
      case 4 =>
      case 5 =>
      case 6 =>
      case 7 =>
    }
  }

  /** high is the square of low, cut off at its own places. */
  predicate IsSquareOf(high: Power, low: Power) {
    var d := high.exponent - 2 * low.exponent;
    d >= 0 && Nat(high.littlenums) == Nat(low.littlenums) * Nat(low.littlenums) / RPow(d)
  }

  lemma Squared(high: Power, m: nat, low: Power, n: nat, d: nat, r: nat)
    requires Nat(high.littlenums) == m && Nat(low.littlenums) == n && high.exponent == 2 * low.exponent + d
    requires r > 0 && RPow(d) == r && m == n * n / r
    ensures IsSquareOf(high, low)
  {
  }

  lemma NegativeIsSquare(place: nat)
    requires 8 <= place <= TABLE_SIZE
    ensures IsSquareOf(Negative(place), Negative(place - 1))
  {
    hide Minus7, Minus8, Minus9, Minus10, Minus11, Nat, RPow, Pow, IsEntry, IsSquareOf;
    RadixConstants();
    var high, low := Negative(place), Negative(place - 1);
    match place {
      case 8 => Squared(high, MINUS_8, low, MINUS_7, 0, 1);
      case 9 => Squared(high, MINUS_9, low, MINUS_8, 0, 1);
      case 10 => Squared(high, MINUS_10, low, MINUS_9, 24, RPow(24));
      case 11 => Squared(high, MINUS_11, low, MINUS_10, 30, RPow(30));
    }
  }

  lemma PositiveIsSquare(place: nat)
    requires 9 <= place <= TABLE_SIZE
    ensures IsSquareOf(Positive(place), Positive(place - 1))
  {
    hide Plus8, Plus9, Plus10, Plus11, Nat, RPow, Pow, IsEntry, IsSquareOf;
    RadixConstants();
    var high, low := Positive(place), Positive(place - 1);
    match place {
      case 9 => Squared(high, PLUS_9, low, PLUS_8, 8, RPow(8));
      case 10 => Squared(high, PLUS_10, low, PLUS_9, 29, RPow(29));
      case 11 => Squared(high, PLUS_11, low, PLUS_10, 29, RPow(29));
    }
  }

  /** From there on each entry is the square of the one before, cut off. So are the positive ones from 10^256 on. */
  lemma EntryIsSquare(negative: bool, place: nat)
    requires 8 <= place <= TABLE_SIZE && (negative || place >= 9)
    ensures IsSquareOf(Entry(negative, place), Entry(negative, place - 1))
  {
    hide IsSquareOf, Negative, Positive;
    if negative {
      NegativeIsSquare(place);
    } else {
      PositiveIsSquare(place);
    }
  }

  lemma EighthDistance(n: nat, r: nat, t: nat)
    requires n == PLUS_8 && r == 0x100000000000000000000000000000000
    requires t == 100000000000000000000000000000000000000000000000000000000000000000000000000000000000000000000000000000000000000000000000000000000
    ensures t <= n * r && (n * r - t) * 0x20_0000_0000_0000_0000 <= 3 * t
  {
  }

  /** The entry for 10^128 is too large by less than 3 * 2^-69 of it. */
  lemma EighthIsNear()
    ensures Positive(8).exponent == 8
    ensures var n := Value(Positive(8)); Ten(128) <= n && (n - Ten(128)) * 0x20_0000_0000_0000_0000 <= 3 * Ten(128)
  {
    hide Plus8, Nat, RPow, Ten, Pow, IsEntry;
    TenValues();
    TenAdd(64, 64);
    RadixConstants();
    EighthDistance(Nat(Positive(8).littlenums), RPow(8), Ten(128));
  }

  // ---------------------------------------------------------------- how near they are

  /** What a string of littlenums at its place is worth. */
  function Worth(p: Power): real {
    Nat(p.littlenums) as real * RealPow(RADIX, p.exponent)
  }

  const UNIT: real := 1.0 / 18446744073709551616.0                            // 2^-64
  const EIGHTH_ERROR: real := 3.0 / 590295810358705651712.0                   // 3 * 2^-69
  const CUT_ERROR: real := 1.0 / 79228162514264337593543950336.0              // 2^-96
  const LAST_PLACE: real := 1.0 / 1267650600228229401496703205376.0           // 2^-100

  /** The error about doubles from an entry to its square. */
  function ErrorBound(negative: bool, place: nat): (t: real)
    ensures 0.0 <= t
  {
    if place <= 7 then if negative then CUT_ERROR else 0.0
    else if place == 8 && !negative then EIGHTH_ERROR
    else 2.1 * ErrorBound(negative, place - 1)
  }

  lemma SmallErrors(negative: bool, place: nat)
    requires 1 <= place <= TABLE_SIZE
    ensures ErrorBound(negative, place) <= UNIT
    ensures negative || place >= 8 ==> ErrorBound(negative, place) >= CUT_ERROR
  {
    if place > 8 {
      assert ErrorBound(negative, 9) == 2.1 * ErrorBound(negative, 8);
      assert ErrorBound(negative, 10) == 2.1 * ErrorBound(negative, 9);
    }
  }

  lemma ErrorDoubles(negative: bool, place: nat)
    requires 9 <= place || (negative && place == 8)
    ensures ErrorBound(negative, place) == 2.1 * ErrorBound(negative, place - 1)
  {
  }

  function Exponent(negative: bool, n: nat): int {
    if negative then -(n as int) else n
  }

  /** An entry as a quotient of whole numbers, cut off. */
  lemma CutOff(n: nat, t: nat, r: nat, s: real)
    requires t > 0 && r > 0 && n == r / t && t as real <= s * r as real
    ensures Near(n as real * (1.0 / r as real), 1.0 / t as real, s)
  {
    RealQuotient(n, t, r);
    Inverses(t as real, 1.0 / t as real);
    Inverses(r as real, 1.0 / r as real);
    Quotient(n as real, t as real, (r % t) as real, r as real, 1.0 / t as real, 1.0 / r as real, s);
  }

  lemma RealQuotient(n: nat, t: nat, r: nat)
    requires t > 0 && n == r / t
    ensures r as real == n as real * t as real + (r % t) as real && (r % t) as real <= t as real
  {
    assert r == n * t + r % t;
    RealProduct(n, t);
  }

  lemma Inverses(a: real, b: real)
    requires a > 0.0 && b == 1.0 / a
    ensures a * b == 1.0
  {
  }

  lemma RealProduct(a: int, b: int)
    ensures (a * b) as real == a as real * b as real
  {
  }

  lemma Quotient(n: real, t: real, q: real, r: real, a: real, b: real, s: real)
    requires t > 0.0 && r > 0.0 && t * a == 1.0 && r * b == 1.0
    requires r == n * t + q && 0.0 <= q <= t && t <= s * r
    ensures a * (1.0 - s) <= n * b <= a * (1.0 + s)
  {
    assert a > 0.0 && b > 0.0 && s > 0.0;
    var ab := a * b;
    NotNegative(a, b);
    assert n * b == (n * t) * ab;
    assert (n * t) * ab == r * ab - q * ab;
    assert r * ab == a && t * ab == b;
    RealMonotone(0.0, q, ab);
    RealMonotone(q, t, ab);
    RealMonotone(t, s * r, ab);
    assert (s * r) * ab == s * a;
    NotNegative(s, a);
  }

  lemma NaturalPow(b: nat, n: nat)
    requires b > 0
    ensures RealPow(b, n) == Pow(b, n) as real
    ensures RealPow(b, -(n as int)) == 1.0 / Pow(b, n) as real
  {
    assert n == 0 ==> Pow(b, n) == 1;
  }

  lemma SmallNegativeIsNear(place: nat)
    requires 1 <= place <= 7
    ensures Near(Worth(Negative(place)), RealPow(10, Exponent(true, Pow2(place - 1))), CUT_ERROR)
  {
    hide Negative, Nat, Pow2, Pow, RealPow, Near, Ten;
    SmallNegative(place);
    NaturalPow(RADIX, 20);
    NaturalPow(10, Pow2(place - 1));
    SmallTen(place);
    TenIsPow(Pow2(place - 1));
    var n, t, r := Nat(Negative(place).littlenums), Ten(Pow2(place - 1)), RPow(20);
    CutOff(n, t, r, CUT_ERROR);
    NearSame(n as real * (1.0 / r as real), 1.0 / t as real, CUT_ERROR,
             Worth(Negative(place)), RealPow(10, Exponent(true, Pow2(place - 1))), CUT_ERROR);
  }

  lemma SmallTen(place: nat)
    requires 1 <= place <= 7
    ensures Ten(Pow2(place - 1)) as real <= CUT_ERROR * RPow(20) as real
  {
    hide Ten, Pow, Pow2, RPow;
    TenValues();
    PlaceValues();
    RadixConstants();
  }

  lemma SmallPositiveIsNear(place: nat)
    requires 1 <= place <= 8
    ensures Near(Worth(Positive(place)), RealPow(10, Pow2(place - 1)), ErrorBound(false, place))
  {
    hide Positive, Nat, Pow2, Pow, RealPow, Ten;
    EntryIsExactIff(place);
    PlaceValues();
    var p, t := Positive(place), Ten(Pow2(place - 1));
    if place == 8 {
      EighthIsNear();
    }
    NaturalPow(RADIX, p.exponent);
    NaturalPow(10, Pow2(place - 1));
    RealProduct(Nat(p.littlenums), RPow(p.exponent));
    TenIsPow(Pow2(place - 1));
    EighthAsReal(Value(p), t);
  }

  lemma TenIsPow(n: nat)
    ensures Ten(n) == Pow(10, n)
  {
  }

  lemma EighthAsReal(v: nat, t: nat)
    ensures v == t ==> Near(v as real, t as real, 0.0)
    ensures t <= v && (v - t) * 0x20_0000_0000_0000_0000 <= 3 * t ==> Near(v as real, t as real, EIGHTH_ERROR)
  {
  }

  lemma CutSquare(n: real, m: real, r: real, q: real, x: real, y: real, d: real)
    requires n * n == m * r + q && 0.0 <= q < r && 0.0 <= d <= 1.0 && 1.0 <= m * d && y == (x * x) * r
    ensures ((n * x) * (n * x)) * (1.0 - d) <= m * y <= (n * x) * (n * x)
  {
    var xx := x * x;
    Exchange(n, n, x, x);
    assert m * y == (m * r) * xx;
    RealMonotone(m * r, n * n, xx);
    RealMonotone(1.0, m * d, r);
    assert (m * d) * r == (m * r) * d;
    NotNegative(q, d);
    assert (n * n) * (1.0 - d) == m * r + q - (m * r) * d - q * d;
    RealMonotone((n * n) * (1.0 - d), m * r, xx);
  }

  lemma SquareWorth(high: Power, low: Power)
    requires IsSquareOf(high, low) && 1.0 <= Nat(high.littlenums) as real * LAST_PLACE
    ensures var w := Worth(low); (w * w) * (1.0 - LAST_PLACE) <= Worth(high) <= w * w
  {
    hide Nat, RealPow;
    var d := high.exponent - 2 * low.exponent;
    var m, n, r := Nat(high.littlenums), Nat(low.littlenums), RPow(d);
    RealPowAdd(RADIX, low.exponent, low.exponent);
    RealPowAdd(RADIX, 2 * low.exponent, d);
    NaturalPow(RADIX, d);
    hide RPow;
    RealProduct(n, n);
    RealProduct(m, r);
    CutSquare(n as real, m as real, r as real, (n * n % r) as real, RealPow(RADIX, low.exponent),
              RealPow(RADIX, high.exponent), LAST_PLACE);
  }

  lemma TinySquare(s: real)
    requires CUT_ERROR <= s <= UNIT
    ensures 0.0 <= s * s && s * s + LAST_PLACE <= 0.1 * s && s <= 0.01
  {
    NotNegative(s, s);
    NotNegative(0.01 - s, s);
    assert LAST_PLACE <= 0.07 * s;
  }

  lemma SquareIsNear(v: real, w: real, exact: real, s: real)
    requires (w * w) * (1.0 - LAST_PLACE) <= v <= w * w
    requires exact >= 0.0 && CUT_ERROR <= s <= UNIT && Near(w, exact, s)
    ensures Near(v, exact * exact, 2.1 * s)
  {
    hide Near;
    NotNegative(exact, exact);
    TinySquare(s);
    NearProduct(w, exact, s, w, exact, s);
    NearCut(v, w * w, LAST_PLACE, exact * exact, s + s + s * s);
    Wider(v, exact * exact, s + s + s * s + LAST_PLACE, 2.1 * s);
  }

  lemma LongEntry(negative: bool, place: nat)
    requires 8 <= place <= TABLE_SIZE
    ensures 1.0 <= Nat(Entry(negative, place).littlenums) as real * LAST_PLACE
  {
    hide Minus8, Minus9, Minus10, Minus11, Plus8, Plus9, Plus10, Plus11, Nat, IsEntry;
  }

  lemma FirstIsNear(negative: bool, place: nat)
    requires 1 <= place <= 7 || (place == 8 && !negative)
    ensures Near(Worth(Entry(negative, place)), RealPow(10, Exponent(negative, Pow2(place - 1))), ErrorBound(negative, place))
  {
    hide Negative, Positive, Nat, Pow2, RealPow, Near, IsEntry, Worth;
    if negative {
      SmallNegativeIsNear(place);
    } else {
      SmallPositiveIsNear(place);
    }
  }

  /** Every entry of the tables is the power of ten it stands for, but for a relative error that is below 2^-64. */
  lemma {:induction false} EntryIsNear(negative: bool, place: nat)
    requires 1 <= place <= TABLE_SIZE
    ensures Near(Worth(Entry(negative, place)), RealPow(10, Exponent(negative, Pow2(place - 1))), ErrorBound(negative, place))
    ensures ErrorBound(negative, place) <= UNIT
  {
    hide Entry, Nat, Pow2, RealPow, Near, IsEntry, Worth, Exponent, ErrorBound, IsSquareOf;
    SmallErrors(negative, place);
    if place <= 7 || (place == 8 && !negative) {
      FirstIsNear(negative, place);
    } else {
      EntryIsNear(negative, place - 1);
      SmallErrors(negative, place - 1);
      ErrorDoubles(negative, place);
      EntryIsSquare(negative, place);
      LongEntry(negative, place);
      SquareWorth(Entry(negative, place), Entry(negative, place - 1));
      DoubledExponent(negative, place);
      var v, low, s := Worth(Entry(negative, place)), RealPow(10, Exponent(negative, Pow2(place - 2))), ErrorBound(negative, place - 1);
      SquareIsNear(v, Worth(Entry(negative, place - 1)), low, s);
      NearSame(v, low * low, 2.1 * s, v, RealPow(10, Exponent(negative, Pow2(place - 1))), ErrorBound(negative, place));
    }
  }

  lemma DoubledExponent(negative: bool, place: nat)
    requires place >= 2
    ensures var low := RealPow(10, Exponent(negative, Pow2(place - 2)));
      RealPow(10, Exponent(negative, Pow2(place - 1))) == low * low
  {
    hide Pow2, RealPow;
    Pow2Twice(place - 2);
    var e := Exponent(negative, Pow2(place - 2));
    RealPowAdd(10, e, e);
  }
}
