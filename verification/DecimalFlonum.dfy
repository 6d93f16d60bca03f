/** atof_generic (cctools/as/atof-generic.c): a decimal numeral becomes a flonum. */
module DecimalFlonum {
  import opened Arith
  import opened Bignum
  import opened BitReader
  import opened Decimal
  import opened Multiply
  import opened NormalForm
  import opened PowerLoop
  import opened PowersOfTen
  import opened Scan
  import F = Flonum

  const LOG_TO_BASE_2_OF_10: real := 3.3219280948873623478703194294893901758651

  /** The littlenums of a number, the lowest first; zero has one. */
  function LittlenumsOf(n: nat): (s: seq<Littlenum>)
    ensures s != []
  {
    if n < RADIX then [n] else [n % RADIX] + LittlenumsOf(n / RADIX)
  }

  /** A string of littlenums without a useless highest zero is that of its number. */
  lemma {:induction false} LittlenumsUnique(s: seq<Littlenum>)
    requires |s| == 1 || Normal(s)
    ensures LittlenumsOf(Nat(s)) == s
  {
    if |s| > 1 {
      LittlenumsUnique(s[1..]);
      DivModUnique(Nat(s), RADIX, Nat(s[1..]), s[0]);
      NatLeader(s);
      RPowStep(|s| - 2);
      MulAtLeast(RPow(|s| - 2), RADIX);
    } else {
      assert s[1..] == [];
    }
  }

  lemma {:induction false} LittlenumsNat(n: nat)
    ensures Nat(LittlenumsOf(n)) == n
    ensures n > 0 ==> Normal(LittlenumsOf(n))
  {
    if n >= RADIX {
      LittlenumsNat(n / RADIX);
      assert LittlenumsOf(n)[1..] == LittlenumsOf(n / RADIX);
    } else {
      assert [n][1..] == [];
    }
  }

  // ---------------------------------------------------------------- how many digits, how many littlenums

  // The source computes both numbers in double, the model in exact reals. For the rooms in use, of four and of six
  // littlenums, the first is 11 and 21 either way, since the quotients are far from whole numbers.

  /** maximum_useful_digits, two guard digits included, for a flonum with two guard littlenums. */
  function MaximumUsefulDigits(precision: nat): int {
    (16.0 * (precision as real - 2.0) / LOG_TO_BASE_2_OF_10).Floor + 2
  }

  /** more_than_enough_littlenums_for_digits. */
  function LittlenumsForDigits(digits: nat): (n: nat)
    ensures n >= 2
  {
    (digits as real * LOG_TO_BASE_2_OF_10 + 1.0).Floor / 16 + 2
  }

  lemma TenThirtyOne()
    ensures Ten(31) == 10000000000000000000000000000000
  {
    hide Ten;
    TenFifteen();
    TenValues();
    TenAdd(16, 15);
  }

  lemma TwoHundredThree()
    ensures Pow2(103) == 10141204801825835211973625643008
  {
    Pow2Sixteen();
    assert Pow2(7) == 128;
    hide Pow2;
    Pow2Add(16, 16);
    Pow2Add(32, 32);
    assert Pow2(64) == 18446744073709551616;
    Pow2Add(32, 7);
    Pow2Add(64, 39);
  }

  lemma TenBelowTwo()
    ensures Ten(1) <= Pow2(4) && Ten(3) <= Pow2(10) && Ten(31) <= Pow2(103)
  {
    assert Ten(1) == 10 && Ten(3) == 1000 && Pow2(4) == 16 && Pow2(10) == 1024;
    hide Ten, Pow2;
    TenThirtyOne();
    TwoHundredThree();
  }

  lemma {:induction false} TensBelowTwos(q: nat, a: nat, b: nat)
    requires Ten(a) <= Pow2(b)
    ensures Ten(a * q) <= Pow2(b * q)
  {
    hide Ten, Pow2;
    if q == 0 {
      TenZero();
      Pow2Zero();
    } else {
      TensBelowTwos(q - 1, a, b);
      assert a * q == a + a * (q - 1) && b * q == b + b * (q - 1);
      TenAdd(a, a * (q - 1));
      Pow2Add(b, b * (q - 1));
      MulBoth(Ten(a), Pow2(b), Ten(a * (q - 1)), Pow2(b * (q - 1)));
    }
  }

  lemma MulBoth(a: nat, b: nat, c: nat, d: nat)
    requires a <= b && c <= d
    ensures a * c <= b * d
  {
    MulMonotone(a, b, c);
    MulMonotone(c, d, b);
  }

  /** Ten to the n needs little more than 103 bits for every 31 digits. */
  lemma TenBits(n: nat)
    ensures Ten(n) <= Pow2(103 * (n / 31) + 10 * (n % 31 / 3) + 4 * (n % 31 % 3))
  {
    TenBelowTwo();
    hide Ten, Pow2;
    var q, t, u := n / 31, n % 31 / 3, n % 31 % 3;
    TensBelowTwos(q, 31, 103);
    TensBelowTwos(t, 3, 10);
    TensBelowTwos(u, 1, 4);
    TenAdd(31 * q, 3 * t);
    TenAdd(31 * q + 3 * t, u);
    Pow2Add(103 * q, 10 * t);
    Pow2Add(103 * q + 10 * t, 4 * u);
    MulBoth(Ten(31 * q), Pow2(103 * q), Ten(3 * t), Pow2(10 * t));
    MulBoth(Ten(31 * q + 3 * t), Pow2(103 * q + 10 * t), Ten(1 * u), Pow2(4 * u));
  }

  /** The buffer holds every number of so many digits, so its last carry is always zero. */
  lemma RoomIsEnough(n: nat)
    requires n <= 20000
    ensures Ten(n) <= RPow(LittlenumsForDigits(n))
  {
    hide Ten, Pow2, RPow;
    var m := LittlenumsForDigits(n);
    TenBits(n);
    RPowIsPow2(m);
    Pow2Monotone(103 * (n / 31) + 10 * (n % 31 / 3) + 4 * (n % 31 % 3), 16 * m);
  }

  // ---------------------------------------------------------------- what is read

  function LeadingZeros(s: string): (n: nat)
    ensures n <= |s| && Zeros(s[..n]) && (n < |s| ==> s[n] != '0')
  {
    if s == [] || s[0] != '0' then 0 else
      var n := LeadingZeros(s[1..]);
      assert s[..n + 1] == [s[0]] + s[1..][..n];
      n + 1
  }

  /** The length without trailing zeros. */
  function KeptLength(s: string): (n: nat)
    ensures n <= |s| && Zeros(s[n..]) && (n > 0 ==> s[n - 1] != '0')
  {
    if s == [] || s[|s|-1] != '0' then |s| else
      var n := KeptLength(s[..|s|-1]);
      assert s[n..] == s[..|s|-1][n..] + [s[|s|-1]];
      n
  }

  /** The digits from the first significant one before the mark to the last one after it. */
  function UsefulDigits(n: Numeral): (s: string)
    requires AllDigits(n.whole) && AllDigits(n.fraction)
    ensures AllDigits(s)
  {
    Significant(n, LeadingZeros(n.whole), KeptLength(n.fraction))
  }

  function DigitsUsed(n: Numeral, capacity: nat): (used: nat)
    requires AllDigits(n.whole) && AllDigits(n.fraction) && capacity > 2
    ensures used <= |UsefulDigits(n)|
  {
    MaximumIsPositive(capacity);
    if |UsefulDigits(n)| > MaximumUsefulDigits(capacity) then MaximumUsefulDigits(capacity) else |UsefulDigits(n)|
  }

  lemma MaximumIsPositive(capacity: nat)
    requires capacity > 2
    ensures MaximumUsefulDigits(capacity) >= 6
  {
    assert 16.0 * (capacity as real - 2.0) >= 16.0;
    assert 16.0 * (capacity as real - 2.0) / LOG_TO_BASE_2_OF_10 >= 4.0;
  }

  /** How many digits at the end are not used, trailing zeros included. */
  function Unused(n: Numeral, capacity: nat): nat
    requires AllDigits(n.whole) && AllDigits(n.fraction) && capacity > 2
  {
    |UsefulDigits(n)| - DigitsUsed(n, capacity) + (|n.fraction| - KeptLength(n.fraction))
  }

  /** The number that the digits in use denote. */
  function UsedMantissa(n: Numeral, capacity: nat): nat
    requires AllDigits(n.whole) && AllDigits(n.fraction) && capacity > 2
  {
    DecimalNat(UsefulDigits(n)[..DigitsUsed(n, capacity)])
  }

  /** The power of ten that it is to be multiplied with. */
  function UsedExponent(n: Numeral, capacity: nat): int
    requires AllDigits(n.whole) && AllDigits(n.fraction) && capacity > 2
  {
    n.exponent - |n.fraction| + Unused(n, capacity)
  }

  /** Truncated to the digits in use; nothing is lost when they are all used. */
  lemma MantissaIsTruncated(n: Numeral, capacity: nat)
    requires AllDigits(n.whole) && AllDigits(n.fraction) && capacity > 2
    ensures UsedMantissa(n, capacity) == Mantissa(n) / Ten(Unused(n, capacity))
    ensures |UsefulDigits(n)| <= MaximumUsefulDigits(capacity)
      ==> Mantissa(n) == UsedMantissa(n, capacity) * Ten(Unused(n, capacity))
  {
    hide DecimalNat, Ten, MaximumUsefulDigits;
    var s := UsefulDigits(n);
    DropDigits(n, LeadingZeros(n.whole), KeptLength(n.fraction), DigitsUsed(n, capacity));
    assert s[..|s|] == s;
  }

  /** There are useful digits exactly when some digit is not zero. */
  lemma UsefulIffNotZero(n: Numeral)
    requires AllDigits(n.whole) && AllDigits(n.fraction)
    ensures UsefulDigits(n) == "" <==> Mantissa(n) == 0
  {
    hide DecimalNat;
    DecimalZero(n.whole + n.fraction);
    var a, b := LeadingZeros(n.whole), KeptLength(n.fraction);
    if UsefulDigits(n) == "" {
      assert n.whole[..a] == n.whole && n.fraction[b..] == n.fraction;
    } else if a < |n.whole| {
      assert (n.whole + n.fraction)[a] == n.whole[a];
    } else {
      assert (n.whole + n.fraction)[|n.whole| + b - 1] == n.fraction[b - 1];
    }
  }

  /** The flonum for a numeral. */
  function Reading(n: Numeral, capacity: nat): Outcome
    requires AllDigits(n.whole) && AllDigits(n.fraction) && capacity > 2
  {
    if Mantissa(n) == 0 then Outcome(Power([], 0), false) else
      var x := UsedExponent(n, capacity);
      var r := Raise(if x < 0 then -x else x, 1, x < 0, ONE, capacity);
      var p := ProductOf(r.power.littlenums, LittlenumsOf(UsedMantissa(n, capacity)), capacity);
      Outcome(Power(p.littlenums, r.power.exponent + p.shift), r.overflow)
  }

  // ---------------------------------------------------------------- when it is right

  /** The exponent is called too large exactly from 2^11 on, in either direction. */
  lemma ReadingOverflows(n: Numeral, capacity: nat)
    requires AllDigits(n.whole) && AllDigits(n.fraction) && capacity > 2
    ensures Reading(n, capacity).overflow
      <==> Mantissa(n) != 0 && (UsedExponent(n, capacity) >= 2048 || UsedExponent(n, capacity) <= -2048)
  {
    hide Raise, ProductOf, DecimalNat, LittlenumsOf, UsedExponent, UsedMantissa, Mantissa;
    var x := UsedExponent(n, capacity);
    OverflowIff(if x < 0 then -x else x, x < 0, capacity);
  }

  /** The steps of the power loop and the last multiplication drop nothing. */
  predicate ReadsExactly(n: Numeral, capacity: nat)
    requires AllDigits(n.whole) && AllDigits(n.fraction) && capacity > 2
  {
    var x := UsedExponent(n, capacity);
    && 0 <= x < 128 && |UsefulDigits(n)| <= MaximumUsefulDigits(capacity)
    && ExactSteps(x, 1, ONE, capacity)
    && ExactProduct(Raise(x, 1, false, ONE, capacity).power.littlenums, LittlenumsOf(UsedMantissa(n, capacity)), capacity)
  }

  lemma ReadingValue(n: Numeral, capacity: nat)
    requires AllDigits(n.whole) && AllDigits(n.fraction) && capacity > 2
    requires Mantissa(n) > 0 && ReadsExactly(n, capacity)
    ensures var r := Reading(n, capacity);
      && !r.overflow && r.power.exponent >= 0
      && Value(r.power) == UsedMantissa(n, capacity) * Ten(UsedExponent(n, capacity))
  {
    hide Raise, ProductOf, DecimalNat, LittlenumsOf, Value, Ten, RPow, Nat, UsedMantissa, UsedExponent, ExactSteps;
    hide ExactProduct, Mantissa, UsefulDigits, MaximumUsefulDigits;
    var x := UsedExponent(n, capacity);
    PowerIsExact(x, capacity);
    DigitsValue(Raise(x, 1, false, ONE, capacity).power, UsedMantissa(n, capacity), capacity);
  }

  /** Then the flonum is the number that the numeral denotes, with a and b for the two signs of its exponent. */
  lemma ReadingIsExact(n: Numeral, capacity: nat, a: nat, b: nat)
    requires AllDigits(n.whole) && AllDigits(n.fraction) && capacity > 2
    requires Mantissa(n) > 0 && ReadsExactly(n, capacity) && a - b == n.exponent - |n.fraction|
    ensures var r := Reading(n, capacity);
      && !r.overflow && r.power.exponent >= 0
      && Value(r.power) * Ten(b) == Mantissa(n) * Ten(a)
  {
    hide Reading, Value, Ten, UsedMantissa, Unused, Mantissa, UsefulDigits, MaximumUsefulDigits, ExactSteps, ExactProduct;
    hide AllDigits, Raise, LittlenumsOf, DecimalNat, RPow, Nat;
    ReadingValue(n, capacity);
    MantissaIsTruncated(n, capacity);
    var x, k := UsedExponent(n, capacity), Unused(n, capacity);
    assert x + b == k + a;
    TenAdd(x, b);
    TenAdd(k, a);
    Rescale(UsedMantissa(n, capacity), Ten(x), Ten(b), Ten(k), Ten(a));
  }

  lemma Rescale(d: nat, x: nat, b: nat, k: nat, a: nat)
    requires x * b == k * a
    ensures (d * x) * b == (d * k) * a
  {
    Regroup(d, x, b);
    Regroup(d, k, a);
  }

  lemma DigitsValue(power: Power, d: nat, capacity: nat)
    requires capacity > 0 && power.exponent >= 0
    requires ExactProduct(power.littlenums, LittlenumsOf(d), capacity)
    ensures var p := ProductOf(power.littlenums, LittlenumsOf(d), capacity);
      Value(Power(p.littlenums, power.exponent + p.shift)) == d * Value(power)
  {
    hide ProductOf, RPow, Nat, LittlenumsOf;
    LittlenumsNat(d);
    var p := ProductOf(power.littlenums, LittlenumsOf(d), capacity);
    RPowAdd(power.exponent, p.shift);
    Rearrange(Nat(power.littlenums), RPow(power.exponent), d, 1, RPow(p.shift), Nat(p.littlenums));
  }

  predicate IsShort(n: Numeral, capacity: nat)
    requires AllDigits(n.whole) && AllDigits(n.fraction) && capacity > 2
  {
    && Mantissa(n) > 0 && |UsefulDigits(n)| <= MaximumUsefulDigits(capacity)
    && UsedMantissa(n, capacity) < WORD && 0 <= UsedExponent(n, capacity) <= if capacity >= 6 then 15 else 9
  }

  /** Up to 2^32 times 10^15 the numeral is read exactly into the six littlenums for a double, and up to
      2^32 times 10^9 into the four for a single. */
  lemma ShortNumeralsReadExactly(n: Numeral, capacity: nat)
    requires AllDigits(n.whole) && AllDigits(n.fraction) && capacity >= 4
    requires IsShort(n, capacity)
    ensures ReadsExactly(n, capacity)
    ensures Normal(Reading(n, capacity).power.littlenums)
  {
    hide Raise, ProductOf, DecimalNat, LittlenumsOf, Value, Ten, RPow, Nat, UsedMantissa, Unused, ExactSteps, MaximumUsefulDigits;
    hide ExactProduct, Normal, UsefulDigits, Mantissa, UsedExponent, Terms, AllDigits;
    var d, x := UsedMantissa(n, capacity), UsedExponent(n, capacity);
    var power := Raise(x, 1, false, ONE, capacity).power;
    ShortRaiseFromOne(x, capacity);
    PowerIsExact(x, capacity);
    MantissaIsTruncated(n, capacity);
    LittlenumsNat(d);
    PositiveQuotient(n, capacity);
    ShortLengths(power, x, d);
    FewTerms(power.littlenums, LittlenumsOf(d));
    ShortProduct(power.littlenums, LittlenumsOf(d), capacity);
  }

  lemma PositiveQuotient(n: Numeral, capacity: nat)
    requires AllDigits(n.whole) && AllDigits(n.fraction) && capacity > 2
    requires Mantissa(n) > 0 && |UsefulDigits(n)| <= MaximumUsefulDigits(capacity)
    ensures UsedMantissa(n, capacity) > 0
  {
    hide Ten, UsedMantissa, Mantissa, UsefulDigits, MaximumUsefulDigits, Unused;
    MantissaIsTruncated(n, capacity);
  }

  lemma FewTerms(a: seq<Littlenum>, b: seq<Littlenum>)
    requires |b| <= 2
    ensures Terms(a, b) <= 2
  {
  }

  lemma OneIsOne()
    ensures Value(ONE) == 1
  {
    RPowZero();
  }

  lemma ShortRaiseFromOne(x: nat, capacity: nat)
    requires x <= 15 && capacity >= 4
    ensures ExactSteps(x, 1, ONE, capacity)
    ensures Normal(Raise(x, 1, false, ONE, capacity).power.littlenums)
  {
    hide Raise, Value, Ten, ExactSteps, Pow, Pow2, RPow;
    PlaceValues();
    TenZero();
    OneIsOne();
    ShortRaise(x, 1, ONE, 0, capacity);
  }

  lemma ShortLengths(power: Power, x: nat, d: nat)
    requires Normal(power.littlenums) && power.exponent >= 0 && Value(power) == Ten(x) && x <= 15
    requires 0 < d < WORD
    ensures |power.littlenums| <= (if x <= 9 then 2 else 4) && |LittlenumsOf(d)| <= 2
  {
    TwoAtMost(d);
    hide Ten, Normal, Value, RPow, LittlenumsOf;
    TenMonotone(x, 15);
    TenFifteen();
    RadixPowers();
    NormalLength(power, 4);
    if x <= 9 {
      TenMonotone(x, 9);
      NormalLength(power, 2);
    }
  }

  lemma TwoAtMost(d: nat)
    requires d < WORD
    ensures |LittlenumsOf(d)| <= 2
  {
  }

  // ---------------------------------------------------------------- when it is not

  /** Only zeros are used of a number other than zero: it has no whole part, and the fraction starts with as many zeros
      as there are useful digits. */
  predicate StartsWithZeros(n: Numeral, capacity: nat)
    requires AllDigits(n.whole) && AllDigits(n.fraction) && capacity > 2
  {
    MaximumIsPositive(capacity);
    && Zeros(n.whole) && |n.fraction| >= MaximumUsefulDigits(capacity)
    && Zeros(n.fraction[..MaximumUsefulDigits(capacity)])
  }

  lemma OnlyZerosIff(n: Numeral, capacity: nat)
    requires AllDigits(n.whole) && AllDigits(n.fraction) && capacity > 2 && Mantissa(n) > 0
    ensures UsedMantissa(n, capacity) == 0 <==> StartsWithZeros(n, capacity)
  {
    hide DecimalNat, MaximumUsefulDigits, Raise, ProductOf, Mantissa, LittlenumsOf, Ten, RunEnd;
    MaximumIsPositive(capacity);
    UsefulIffNotZero(n);
    var s, used := UsefulDigits(n), DigitsUsed(n, capacity);
    DecimalZero(s[..used]);
    if !Zeros(n.whole) {
      assert s[0] == n.whole[LeadingZeros(n.whole)];
      assert s[..used][0] == s[0];
    } else {
      assert n.whole[LeadingZeros(n.whole)..] == "";
      assert s == n.fraction[..KeptLength(n.fraction)];
      if used == |s| {
        assert s[..used][|s| - 1] == s[|s| - 1] == n.fraction[|s| - 1];
      } else {
        assert s[..used] == n.fraction[..MaximumUsefulDigits(capacity)];
      }
    }
  }

  /** A flonum of zero then, whatever the exponent. */
  lemma VanishedIsZero(n: Numeral, capacity: nat)
    requires AllDigits(n.whole) && AllDigits(n.fraction) && capacity > 2 && UsedMantissa(n, capacity) == 0
    ensures Reading(n, capacity).power.littlenums == []
  {
    hide DecimalNat, MaximumUsefulDigits, Raise, ProductOf, Mantissa, UsefulDigits, UsedExponent, UsedMantissa;
    var x := UsedExponent(n, capacity);
    ZeroFactor(Raise(if x < 0 then -x else x, 1, x < 0, ONE, capacity).power.littlenums, capacity);
  }

  // ---------------------------------------------------------------- normal form of readings

  /** Every reading is empty or has a leader other than zero, whatever wraps, is cut off or overflows. */
  lemma ReadingIsNormal(n: Numeral, capacity: nat)
    requires AllDigits(n.whole) && AllDigits(n.fraction) && capacity > 2
    ensures var s := Reading(n, capacity).power.littlenums; s == [] || Normal(s)
  {
    hide DecimalNat, MaximumUsefulDigits, Raise, ProductOf, Mantissa, UsefulDigits, UsedExponent, UsedMantissa, LittlenumsOf;
    var x, d := UsedExponent(n, capacity), UsedMantissa(n, capacity);
    var e := if x < 0 then -x else x;
    var power := Raise(e, 1, x < 0, ONE, capacity).power.littlenums;
    PowerIsNormal(e, x < 0, capacity);
    LittlenumsNat(d);
    if d == 0 {
      VanishedIsZero(n, capacity);
    } else {
      ProductNormal(power, LittlenumsOf(d), capacity);
    }
  }

  /** A number other than zero is read as zero exactly when only zeros are used of it. */
  lemma VanishesIff(n: Numeral, capacity: nat)
    requires AllDigits(n.whole) && AllDigits(n.fraction) && 2 < capacity <= 1000 && Mantissa(n) > 0
    ensures Reading(n, capacity).power.littlenums == [] <==> StartsWithZeros(n, capacity)
  {
    OnlyZerosIff(n, capacity);
    if UsedMantissa(n, capacity) == 0 {
      VanishedIsZero(n, capacity);
    } else {
      DigitsFit(n, capacity);
      StaysWhenUsed(n, capacity);
    }
    hide *;
  }

  lemma StaysWhenUsed(n: Numeral, capacity: nat)
    requires AllDigits(n.whole) && AllDigits(n.fraction) && capacity > 2 && Mantissa(n) > 0
    requires UsedMantissa(n, capacity) > 0 && |LittlenumsOf(UsedMantissa(n, capacity))| <= capacity
    ensures Reading(n, capacity).power.littlenums != []
  {
    hide DecimalNat, MaximumUsefulDigits, Raise, ProductOf, Mantissa, UsefulDigits, UsedExponent, UsedMantissa, LittlenumsOf;
    var x, d := UsedExponent(n, capacity), UsedMantissa(n, capacity);
    var e := if x < 0 then -x else x;
    PowerIsNormal(e, x < 0, capacity);
    LittlenumsNat(d);
    ProductNormal(Raise(e, 1, x < 0, ONE, capacity).power.littlenums, LittlenumsOf(d), capacity);
  }

  /** Eleven zeros and a one after the mark, as in 0.000000000001, read as zero into four littlenums. */
  lemma VanishingExample(n: Numeral)
    requires AllDigits(n.whole) && AllDigits(n.fraction)
    requires n.whole == "" && n.fraction == ZEROS + "1"
    ensures Mantissa(n) > 0 && Reading(n, 4).power.littlenums == []
  {
    ElevenDigits();
    hide Reading, DecimalNat, UsedMantissa, MaximumUsefulDigits, Ten;
    DecimalZero(n.whole + n.fraction);
    assert (n.whole + n.fraction)[11] == '1';
    assert n.fraction[..11] == ZEROS;
    VanishesIff(n, 4);
  }

  const ZEROS := "00000000000"

  lemma ElevenDigits()
    ensures MaximumUsefulDigits(4) == 11
  {
  }

  /** The digits in use need no more littlenums than the target has. */
  lemma DigitsFit(n: Numeral, capacity: nat)
    requires AllDigits(n.whole) && AllDigits(n.fraction) && 2 < capacity <= 1000 && UsedMantissa(n, capacity) > 0
    ensures |LittlenumsOf(UsedMantissa(n, capacity))| <= capacity
  {
    hide Ten, RPow, DecimalNat, LittlenumsOf, UsefulDigits, MaximumUsefulDigits, Nat;
    var d, used := UsedMantissa(n, capacity), DigitsUsed(n, capacity);
    DecimalBound(UsefulDigits(n)[..used]);
    TenMonotone(used, MaximumUsefulDigits(capacity));
    UsefulDigitsFit(capacity);
    LittlenumsNat(d);
    assert RPow(0) == 1 by { RPowZero(); }
    NormalLength(Power(LittlenumsOf(d), 0), capacity);
  }

  lemma UsefulDigitsFit(capacity: nat)
    requires 2 < capacity <= 1000
    ensures MaximumUsefulDigits(capacity) >= 0 && Ten(MaximumUsefulDigits(capacity)) <= RPow(capacity)
  {
    var n := MaximumUsefulDigits(capacity);
    MaximumIsPositive(capacity);
    TenBits(n);
    RPowIsPow2(capacity);
    UsefulBits(capacity);
    hide Ten, RPow, Pow2, MaximumUsefulDigits;
    Pow2Monotone(103 * (n / 31) + 10 * (n % 31 / 3) + 4 * (n % 31 % 3), 16 * capacity);
  }

  lemma UsefulBits(capacity: nat)
    requires 2 < capacity <= 1000
    ensures var n := MaximumUsefulDigits(capacity);
      103 * (n / 31) + 10 * (n % 31 / 3) + 4 * (n % 31 % 3) <= 16 * capacity
  {
    var n := MaximumUsefulDigits(capacity);
    assert (n - 2) as real <= 16.0 * (capacity as real - 2.0) / LOG_TO_BASE_2_OF_10;
    assert (n - 2) as real * LOG_TO_BASE_2_OF_10 <= 16.0 * (capacity as real - 2.0);
    assert (n - 2) as real * 3.3219 <= 16.0 * (capacity as real - 2.0);
    assert (n - 2) * 33219 <= 160000 * (capacity - 2);
  }

  lemma ZeroFactor(a: seq<Littlenum>, capacity: nat)
    requires capacity > 0
    ensures ProductOf(a, [0], capacity).littlenums == []
  {
    hide Digits, CarryInto, AllLost, Nat;
    var n := |a|;
    ComputedProduct(a, [0], n);
    NatZero([0]);
    var digits, carry := Digits(a, [0], n), CarryInto(a, [0], n);
    NatZero(digits + [carry]);
    assert (digits + [carry])[n] == carry;
    assert forall i :: 0 <= i < n ==> (digits + [carry])[i] == digits[i];
    AllLowZeros(digits);
  }

  // ---------------------------------------------------------------- collecting the digits

  /** Multiplies by ten and adds a digit, in place. */
  method TimesTenPlus(buffer: array<Littlenum>, digit: nat) returns (carry: nat)
    requires digit < 10
    modifies buffer
    ensures Nat(buffer[..]) + carry * RPow(buffer.Length) == 10 * old(Nat(buffer[..])) + digit
  {
    hide Nat, RPow;
    ghost var before := buffer[..];
    carry := digit;
    RPowZero();
    NatZero([]);
    var i := 0;
    while i < buffer.Length
      invariant 0 <= i <= buffer.Length && carry < 10
      invariant forall k :: i <= k < buffer.Length ==> buffer[k] == before[k]
      invariant Nat(buffer[..i]) + carry * RPow(i) == 10 * Nat(before[..i]) + digit
    {
      ghost var low := buffer[..i];
      var work := carry + 10 * (buffer[i] as nat);
      buffer[i] := work % RADIX;
      assert buffer[..i + 1] == low + [buffer[i]] && before[..i + 1] == before[..i] + [before[i]];
      NatSnoc(low, buffer[i]);
      NatSnoc(before[..i], before[i]);
      RPowStep(i);
      CarryOn(carry, before[i], RPow(i), buffer[i], work / RADIX);
      carry := work / RADIX;
      i := i + 1;
    }
    assert buffer[..i] == buffer[..] && before[..i] == before;
  }

  lemma CarryOn(carry: nat, x: nat, p: nat, low: nat, next: nat)
    requires carry + 10 * x == next * RADIX + low
    ensures p * low + next * (RADIX * p) == carry * p + 10 * (p * x)
  {
    assert (carry + 10 * x) * p == (next * RADIX + low) * p;
    assert (next * RADIX) * p == next * (RADIX * p);
  }

  /** The digits lie in the text from first on, with a decimal mark after the first so many of them. */
  ghost predicate LieAt(s: string, text: string, first: nat, before: nat) {
    && AllDigits(s) && before <= |s| && first + before <= |text|
    && (forall k :: 0 <= k < before ==> s[k] == text[first + k])
    && (before < |s| ==> first + |s| < |text| && !IsDigit(text[first + before]))
    && (forall k :: before <= k < |s| ==> s[k] == text[first + 1 + k])
  }

  /** Collects so many digits into littlenums; the carry out of the highest is always zero, so that the
      call of abort cannot be reached. */
  method CollectDigits(text: string, first: nat, before: nat, used: nat, ghost s: string) returns (f: F.Flonum)
    requires LieAt(s, text, first, before) && 0 < used <= |s| && used <= 20000
    ensures fresh(f) && fresh(f.low) && f.Valid() && f.sign == '+' && f.exponent == 0
    ensures f.Littlenums() == LittlenumsOf(DecimalNat(s[..used]))
  {
    hide Nat, RPow, DecimalNat, LittlenumsForDigits, Ten;
    var size := LittlenumsForDigits(used);
    f := new F.Flonum(size);
    var buffer := f.low;
    NatZero(buffer[..]);
    DecimalZero(s[..0]);
    var p, count := first, used;
    while count > 0
      invariant 0 <= count <= used
      invariant (p == first + (used - count) && used - count <= before)
             || (p == first + (used - count) + 1 && used - count >= before)
      invariant Nat(buffer[..]) == DecimalNat(s[..used - count])
      invariant f.sign == '+' && f.exponent == 0
      decreases count, first + |s| + 1 - p
    {
      ghost var k := used - count;
      assert s[k] == if k < before then text[first + k] else text[first + 1 + k];
      if IsDigit(text[p]) {
        assert s[k] == text[p];
        var carry := TimesTenPlus(buffer, DigitOf(text[p]));
        assert s[..k + 1] == s[..k] + [s[k]];
        DecimalSnoc(s[..k], s[k]);
        NoCarry(s[..k + 1], used, size, Nat(buffer[..]), carry);
        count := count - 1;
      }
      p := p + 1;
    }
    assert buffer[..size] == buffer[..] && s[..used - count] == s[..used];
    while size >= 2 && buffer[size - 1] == 0
      invariant 1 <= size <= buffer.Length && f.sign == '+' && f.exponent == 0
      invariant Nat(buffer[..size]) == DecimalNat(s[..used])
    {
      assert buffer[..size] == buffer[..size - 1] + [0];
      NatTopZero(buffer[..size - 1]);
      size := size - 1;
    }
    f.leader := size - 1;
    assert f.Littlenums() == buffer[..size];
    LittlenumsUnique(buffer[..size]);
  }

  lemma NoCarry(s: string, used: nat, size: nat, low: nat, carry: nat)
    requires AllDigits(s) && |s| <= used <= 20000 && size == LittlenumsForDigits(used)
    requires low + carry * RPow(size) == DecimalNat(s)
    ensures carry == 0
  {
    hide RPow, DecimalNat, LittlenumsForDigits, Ten;
    DecimalBound(s);
    TenMonotone(|s|, used);
    RoomIsEnough(used);
    if carry > 0 {
      MulAtLeast(carry, RPow(size));
    }
  }

  // ---------------------------------------------------------------- atof_generic

  predicate Letter(c: char, lower: char, upper: char) {
    c == lower || c == upper
  }

  predicate IsNan(text: string, p: nat) {
    Letter(At(text, p), 'n', 'N') && Letter(At(text, p + 1), 'a', 'A') && Letter(At(text, p + 2), 'n', 'N')
  }

  predicate IsInf(text: string, p: nat) {
    Letter(At(text, p), 'i', 'I') && Letter(At(text, p + 1), 'n', 'N') && Letter(At(text, p + 2), 'f', 'F')
  }

  predicate IsInity(text: string, p: nat) {
    Letter(At(text, p), 'i', 'I') && Letter(At(text, p + 1), 'n', 'N') && Letter(At(text, p + 2), 'i', 'I')
    && Letter(At(text, p + 3), 't', 'T') && Letter(At(text, p + 4), 'y', 'Y')
  }

  /** The flonum with these littlenums, exponent and sign is what the text at start says. */
  predicate IsReadingOf(text: string, start: nat, marks: string, exponentMarks: string, capacity: nat,
                        s: seq<Littlenum>, exponent: int, sign: char, overflow: bool, end: nat)
    requires capacity > 2
  {
    var p := SignEnd(text, start);
    if IsNan(text, p) then
      |s| == 1 && exponent == 0 && sign == '\0' && !overflow && end == p + 3
    else if IsInf(text, p) then
      && |s| == 1 && exponent == 0 && sign == (if At(text, start) == '-' then 'N' else 'P') && !overflow
      && end == if IsInity(text, p + 3) then p + 8 else p + 3
    else
      var n := NumeralAt(text, start, marks, exponentMarks);
      && sign == (if n.negative then '-' else '+') && end == n.end
      && Outcome(Power(s, exponent), overflow) == Reading(n, capacity)
  }

  lemma ZeroAt(s: string, a: nat, b: nat, k: nat)
    requires a <= k < b <= |s| && Zeros(s[a..b])
    ensures s[k] == '0'
  {
    assert s[a..b][k - a] == s[k];
  }

  lemma LeadingZerosUnique(s: string, k: nat)
    requires k <= |s| && Zeros(s[..k]) && (k < |s| ==> s[k] != '0')
    ensures LeadingZeros(s) == k
  {
    var n := LeadingZeros(s);
    if n < k {
      ZeroAt(s, 0, k, n);
    } else if k < n {
      ZeroAt(s, 0, n, k);
    }
  }

  lemma KeptLengthUnique(s: string, k: nat)
    requires k <= |s| && Zeros(s[k..]) && (k > 0 ==> s[k - 1] != '0')
    ensures KeptLength(s) == k
  {
  }

  /** What the scan has found are the useful digits. */
  lemma ScannedDigits(n: Numeral, text: string, start: nat, first: nat, before: nat, after: nat)
    requires AllDigits(n.whole) && AllDigits(n.fraction)
    requires AreDigitsOf(n.whole, n.fraction, text, start, first, before, after)
    ensures |UsefulDigits(n)| == before + after && KeptLength(n.fraction) == after
    ensures LieAt(UsefulDigits(n), text, first, before)
  {
    var k := first - start;
    if before > 0 {
      assert n.whole[k..][0] == n.whole[k] && text[first..first + before][0] == text[first];
    }
    assert |n.whole[k..]| == |text[first..first + before]|;
    LeadingZerosUnique(n.whole, k);
    KeptLengthUnique(n.fraction, after);
    hide LeadingZeros, KeptLength;
    var s := UsefulDigits(n);
    assert s == n.whole[k..] + n.fraction[..after];
    forall i | 0 <= i < before ensures s[i] == text[first + i] {
      assert s[i] == text[first..first + before][i];
    }
    forall i | before <= i < |s| ensures s[i] == text[first + 1 + i] {
      var tail := text[first + before + 1..first + before + 1 + after];
      assert s[i] == n.fraction[..after][i - before] == tail[i - before];
      assert tail[i - before] == text[first + before + 1 + (i - before)];
    }
  }

  /** Reads a number. The flonum's room is that of the callers, two guard littlenums included. */
  method AtofGeneric(text: string, start: nat, marks: string, exponentMarks: string, number: F.Flonum)
    returns (overflow: bool, end: nat)
    requires start <= |text| && AreMarks(marks) && AreMarks(exponentMarks) && '\0' !in text
    requires number.Valid() && 2 < number.low.Length <= 1000
    modifies number, number.low
    ensures number.Valid() && end <= |text|
    ensures IsReadingOf(text, start, marks, exponentMarks, number.low.Length,
                        number.Littlenums(), number.exponent, number.sign, overflow, end)
  {
    hide Reading, MaximumUsefulDigits, NumeralAt, AllDigits;
    var p := start;
    var sign := '+';
    if p < |text| && text[p] in {'+', '-'} {
      sign := text[p];
      p := p + 1;
    }
    overflow := false;
    if IsNan(text, p) {
      number.sign, number.exponent, number.leader := '\0', 0, 0;
      end := p + 3;
    } else if IsInf(text, p) {
      number.sign, number.exponent, number.leader := if sign == '+' then 'P' else 'N', 0, 0;
      end := if IsInity(text, p + 3) then p + 8 else p + 3;
    } else {
      overflow, end := ReadNumeral(text, start, sign, marks, exponentMarks, number);
      NegativeNumeral(text, start, marks, exponentMarks);
    }
  }

  method ReadNumeral(text: string, start: nat, sign: char, marks: string, exponentMarks: string, number: F.Flonum)
    returns (overflow: bool, end: nat)
    requires start <= |text| && AreMarks(marks) && AreMarks(exponentMarks) && '\0' !in text
    requires number.Valid() && 2 < number.low.Length <= 1000
    modifies number, number.low
    ensures var n := NumeralAt(text, start, marks, exponentMarks);
      && number.Valid() && end == n.end <= |text| && number.sign == sign
      && Outcome(Power(number.Littlenums(), number.exponent), overflow) == Reading(n, number.low.Length)
  {
    hide MaximumUsefulDigits, NumeralAt, UsefulDigits, DecimalNat, Raise, ProductOf, LittlenumsOf, KeptLength, Mantissa, LieAt;
    hide AreDigitsOf;
    ghost var n := NumeralAt(text, start, marks, exponentMarks);
    var capacity := number.low.Length;
    var first, before, after, exponent;
    first, before, after, exponent, end := ScanNumber(text, start, marks, exponentMarks);
    ScannedDigits(n, text, SignEnd(text, start), first, before, after);
    UsefulIffNotZero(n);
    overflow := false;
    var available := before + after;
    if available == 0 {
      number.exponent, number.leader, number.sign := 0, -1, sign;
    } else {
      MaximumIsPositive(capacity);
      MaximumIsBounded(capacity);
      var used := if available > MaximumUsefulDigits(capacity) then MaximumUsefulDigits(capacity) else available;
      var decimalExponent := exponent + before - used;
      var digits := CollectDigits(text, first, before, used, UsefulDigits(n));
      var power;
      power, overflow := PowerOfTen(if decimalExponent < 0 then -decimalExponent else decimalExponent,
                                    decimalExponent < 0, capacity);
      F.FlonumMultip(power, digits, number);
      number.sign := sign;
    }
  }

  lemma MaximumIsBounded(capacity: nat)
    requires 2 < capacity <= 1000
    ensures MaximumUsefulDigits(capacity) <= 20000
  {
    assert 16.0 * (capacity as real - 2.0) / LOG_TO_BASE_2_OF_10 <= 16000.0;
  }
}
