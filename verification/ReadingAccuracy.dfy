/** How near the flonum that is read of a numeral comes to the numeral's value (cctools/as/atof-generic.c), and so how near
    the encoded number comes to being the nearest one (cctools/as/atof-ieee.c). */
module ReadingAccuracy {
  import opened Arith
  import opened Bignum
  import opened BitReader
  import opened Decimal
  import opened DecimalFlonum
  import opened DecimalToIeee
  import opened Encoding
  import opened Ieee754
  import opened Multiply
  import opened Nearness
  import opened PowerAccuracy
  import opened PowerErrors
  import opened PowerLoop
  import opened PowersOfTen
  import opened ProductErrors
  import opened SafeDigits

  // ---------------------------------------------------------------- the last multiplication

  /** The numeral can be read: some digit in use is not zero, and the tables go far enough. */
  predicate IsReadable(n: Numeral, capacity: nat)
    requires AllDigits(n.whole) && AllDigits(n.fraction)
  {
    IsRoom(capacity) && UsedMantissa(n, capacity) > 0 && -2048 < UsedExponent(n, capacity) < 2048
  }

  /** The power of ten that the digits are multiplied with. */
  function LastPower(n: Numeral, capacity: nat): Power
    requires AllDigits(n.whole) && AllDigits(n.fraction) && IsReadable(n, capacity)
  {
    var x := UsedExponent(n, capacity);
    Raise(if x < 0 then -x else x, 1, x < 0, ONE, capacity).power
  }

  /** What the last multiplication may cut off, as a share of its product. */
  function LastCut(n: Numeral, capacity: nat): real
    requires AllDigits(n.whole) && AllDigits(n.fraction) && IsReadable(n, capacity)
  {
    Cut(LastPower(n, capacity).littlenums, LittlenumsOf(UsedMantissa(n, capacity)), capacity)
  }

  /** What the wraps of the last multiplication lose; all others lose nothing. */
  function LastLost(n: Numeral, capacity: nat): real
    requires AllDigits(n.whole) && AllDigits(n.fraction) && IsReadable(n, capacity)
  {
    var power := LastPower(n, capacity);
    AllLost(power.littlenums, LittlenumsOf(UsedMantissa(n, capacity))) as real * RealPow(RADIX, power.exponent)
  }

  /** The number that the digits in use denote. */
  function UsedValue(n: Numeral, capacity: nat): real
    requires AllDigits(n.whole) && AllDigits(n.fraction) && IsReadable(n, capacity)
  {
    UsedMantissa(n, capacity) as real * RealPow(10, UsedExponent(n, capacity))
  }

  lemma PowerOfReading(n: Numeral, capacity: nat)
    requires AllDigits(n.whole) && AllDigits(n.fraction) && IsReadable(n, capacity)
    ensures IsNormalIn(LastPower(n, capacity).littlenums, capacity)
    ensures Near(Worth(LastPower(n, capacity)), RealPow(10, UsedExponent(n, capacity)), 27.5 * Grain(capacity))
  {
    hide Raise, RealPow, Grain, Near, UsedExponent, UsedMantissa, Worth, IsNormalIn;
    var x := UsedExponent(n, capacity);
    var e := if x < 0 then -x else x;
    PowerOfTenIsNear(e, x < 0, capacity);
  }

  lemma PowerOfTenIsNear(e: nat, negative: bool, capacity: nat)
    requires IsRoom(capacity) && e < 2048
    ensures var power := Raise(e, 1, negative, ONE, capacity).power;
      && IsNormalIn(power.littlenums, capacity)
      && Near(Worth(power), RealPow(10, if negative then -(e as int) else e), 27.5 * Grain(capacity))
  {
    hide Raise, RealPow, Grain, Near, Worth, IsNormalIn;
    PowerLoop.PowerIsNormal(e, negative, capacity);
    PowerIsNear(e, negative, capacity);
  }

  /** The reading as a product. */
  lemma ReadingIsProduct(n: Numeral, capacity: nat)
    requires AllDigits(n.whole) && AllDigits(n.fraction) && IsReadable(n, capacity)
    ensures var p := ProductOf(LastPower(n, capacity).littlenums, LittlenumsOf(UsedMantissa(n, capacity)), capacity);
      && p.littlenums != [] && Normal(LittlenumsOf(UsedMantissa(n, capacity)))
      && Reading(n, capacity).power == Power(p.littlenums, LastPower(n, capacity).exponent + p.shift)
  {
    hide Raise, DecimalNat, LittlenumsOf, MaximumUsefulDigits, Ten, UsedExponent, ProductOf, UsefulDigits;
    MantissaIsTruncated(n, capacity);
    DigitsFit(n, capacity);
    StaysWhenUsed(n, capacity);
    LittlenumsNat(UsedMantissa(n, capacity));
  }

  /** With what its last wraps lose added, a reading is the number that the digits in use denote, but for the errors of
      the power of ten and of the last cut. */
  lemma ReadingIsNear(n: Numeral, capacity: nat)
    requires AllDigits(n.whole) && AllDigits(n.fraction) && IsReadable(n, capacity)
    ensures Near(Worth(Reading(n, capacity).power) + LastLost(n, capacity), UsedValue(n, capacity),
                 27.5 * Grain(capacity) + LastCut(n, capacity))
  {
    hide Raise, UsedExponent, UsedMantissa, Worth, Near, RealPow, Grain, LittlenumsOf, ProductOf, Reading, Cut, AllLost;
    hide LastPower;
    var power, d := LastPower(n, capacity), UsedMantissa(n, capacity);
    PowerOfReading(n, capacity);
    ReadingIsProduct(n, capacity);
    var v, cut := Worth(Reading(n, capacity).power) + LastLost(n, capacity), LastCut(n, capacity);
    LastWorth(power, d, capacity, Reading(n, capacity).power, v, cut);
    GrainIsSmall(capacity);
    var ten, s := RealPow(10, UsedExponent(n, capacity)), 27.5 * Grain(capacity);
    MultipliedError(Worth(power), ten, s, d as real, v, cut, UsedValue(n, capacity), 27.5 * Grain(capacity) + LastCut(n, capacity));
  }

  lemma GrainIsSmall(capacity: nat)
    ensures 0.0 <= 27.5 * Grain(capacity) <= 0.1
  {
  }

  lemma LastWorth(power: Power, d: nat, capacity: nat, r: Power, v: real, cut: real)
    requires capacity > 0 && Normal(power.littlenums) && Normal(LittlenumsOf(d))
    requires ProductOf(power.littlenums, LittlenumsOf(d), capacity).littlenums != []
    requires var p := ProductOf(power.littlenums, LittlenumsOf(d), capacity);
      r == Power(p.littlenums, power.exponent + p.shift)
    requires v == Worth(r) + AllLost(power.littlenums, LittlenumsOf(d)) as real * RealPow(RADIX, power.exponent)
    requires cut == Cut(power.littlenums, LittlenumsOf(d), capacity)
    ensures 0.0 <= cut <= 1.0 && (Worth(power) * d as real) * (1.0 - cut) <= v <= Worth(power) * d as real
  {
    hide LittlenumsOf, ProductOf, Cut, AllLost, RealPow, Nat;
    var digits := Power(LittlenumsOf(d), 0);
    LittlenumsNat(d);
    RealPowZero(RADIX);
    assert Worth(digits) == d as real;
    hide Worth;
    ProductWorth(power, digits, capacity);
    ProductShare(power.littlenums, digits.littlenums, capacity);
  }

  lemma MultipliedError(power: real, ten: real, s: real, d: real, v: real, cut: real, exact: real, t: real)
    requires exact == d * ten && t == s + cut
    requires ten >= 0.0 && d >= 0.0 && Near(power, ten, s) && 0.0 <= s <= 0.1 && 0.0 <= cut <= 1.0
    requires (power * d) * (1.0 - cut) <= v <= power * d
    ensures Near(v, exact, t)
  {
    hide Near;
    NearScaled(power, ten, s, d, power * d, exact);
    NotNegative(d, ten);
    NearCut(v, power * d, cut, exact, s);
    NearSame(v, exact, s + cut, v, exact, t);
  }

  // ---------------------------------------------------------------- the numeral's own value

  /** The number that all digits of the numeral denote. */
  function ValueOf(n: Numeral): real
    requires AllDigits(n.whole) && AllDigits(n.fraction)
  {
    Mantissa(n) as real * RealPow(10, n.exponent - |n.fraction|)
  }

  /** What not using the last digits can make out, as a share of the value. */
  function DigitShare(n: Numeral, capacity: nat): (t: real)
    requires AllDigits(n.whole) && AllDigits(n.fraction) && IsReadable(n, capacity)
    ensures 0.0 <= t <= 1.0
  {
    if |UsefulDigits(n)| <= MaximumUsefulDigits(capacity) then 0.0 else 1.0 / UsedMantissa(n, capacity) as real
  }

  lemma UsedValueIsNear(n: Numeral, capacity: nat)
    requires AllDigits(n.whole) && AllDigits(n.fraction) && IsReadable(n, capacity)
    ensures ValueOf(n) >= 0.0 && Near(UsedValue(n, capacity), ValueOf(n), DigitShare(n, capacity))
  {
    hide RealPow, Mantissa, UsedMantissa, Unused, UsefulDigits, MaximumUsefulDigits, Near, Ten, Pow;
    MantissaIsTruncated(n, capacity);
    var k, x := Unused(n, capacity), n.exponent - |n.fraction|;
    RealPowAdd(10, x, k);
    TenIsPow(k);
    NaturalPow(10, k);
    var m, d, t := Mantissa(n), UsedMantissa(n, capacity), Ten(k);
    Truncated(m, d, t, |UsefulDigits(n)| <= MaximumUsefulDigits(capacity));
    TruncatedShare(m as real, d as real, t as real, RealPow(10, x), UsedValue(n, capacity), ValueOf(n), DigitShare(n, capacity));
  }

  lemma Truncated(m: nat, d: nat, t: nat, whole: bool)
    requires t > 0 && d == m / t && d > 0 && (whole ==> m == d * t)
    ensures d as real * t as real <= m as real <= d as real * t as real + t as real
    ensures whole ==> m as real == d as real * t as real
  {
    RealProduct(d, t);
  }

  lemma TruncatedShare(m: real, d: real, t: real, x: real, used: real, value: real, share: real)
    requires d >= 1.0 && t > 0.0 && x > 0.0 && d * t <= m <= d * t + t
    requires used == d * (x * t) && value == m * x
    requires share == 1.0 / d || (share == 0.0 && m == d * t)
    ensures value >= 0.0 && Near(used, value, share)
  {
    assert used == (d * t) * x;
    RealMonotone(d * t, m, x);
    NotNegative(d, t);
    NotNegative(m, x);
    if share != 0.0 {
      assert share * d == 1.0;
      NotNegative(share, value);
      RealMonotone(m, d * t + t, 1.0 - share);
      assert (d * t + t) * (1.0 - share) == d * t + t - t * (share * d) - t * share;
      NotNegative(t, share);
      RealMonotone(m * (1.0 - share), d * t, x);
      Commuted(m, x, 1.0 - share);
    }
  }

  /** The relative error of a reading, by its parts. */
  function ReadingError(n: Numeral, capacity: nat): real
    requires AllDigits(n.whole) && AllDigits(n.fraction) && IsReadable(n, capacity)
  {
    var t := 27.5 * Grain(capacity) + LastCut(n, capacity);
    t + DigitShare(n, capacity) + t * DigitShare(n, capacity)
  }

  /** With what its last wraps lose added, a reading is the numeral's value but for this error. */
  lemma ReadingIsNearValue(n: Numeral, capacity: nat)
    requires AllDigits(n.whole) && AllDigits(n.fraction) && IsReadable(n, capacity)
    ensures ValueOf(n) >= 0.0 && ReadingError(n, capacity) >= 0.0
    ensures Near(Worth(Reading(n, capacity).power) + LastLost(n, capacity), ValueOf(n), ReadingError(n, capacity))
  {
    hide Near, Worth, Reading, LastLost, UsedValue, ValueOf, DigitShare, LastCut, Grain, UsedMantissa, UsedExponent;
    ReadingIsNear(n, capacity);
    UsedValueIsNear(n, capacity);
    GrainIsSmall(capacity);
    CutIsPositive(n, capacity);
    var t, d := 27.5 * Grain(capacity) + LastCut(n, capacity), DigitShare(n, capacity);
    NotNegative(t, d);
    NearTwice(Worth(Reading(n, capacity).power) + LastLost(n, capacity), UsedValue(n, capacity), t, ValueOf(n), d,
              ReadingError(n, capacity));
  }

  lemma CutIsPositive(n: Numeral, capacity: nat)
    requires AllDigits(n.whole) && AllDigits(n.fraction) && IsReadable(n, capacity)
    ensures LastCut(n, capacity) >= 0.0
  {
    hide Cut, UsedMantissa, UsedExponent, LastPower;
  }

  /** Nothing wraps in the last multiplication, and at most one littlenum of its room stays empty, when the digits in
      use are a number below 2^32. */
  lemma ShortDigits(n: Numeral, capacity: nat)
    requires AllDigits(n.whole) && AllDigits(n.fraction) && IsReadable(n, capacity) && UsedMantissa(n, capacity) < WORD
    ensures LastLost(n, capacity) == 0.0 && LastCut(n, capacity) <= RealPow(RADIX, 2 - capacity)
  {
    hide UsedMantissa, UsedExponent, Raise, ProductOf, Cut, RealPow, LittlenumsOf, Grain, Reading, Wraps, Lost, Near;
    var a, b := LastPower(n, capacity).littlenums, LittlenumsOf(UsedMantissa(n, capacity));
    PowerOfReading(n, capacity);
    ReadingIsProduct(n, capacity);
    TwoAtMost(UsedMantissa(n, capacity));
    forall k: nat ensures Wraps(a, b, k) == 0 {
      ShortFactorsNeverWrap(a, b, k);
    }
    LostIffWraps(a, b, |a| + |b| - 1);
    NearlyFullCut(a, b, capacity);
  }

  /** In the room for a single the last multiplication never wraps either: eleven digits have at most three littlenums,
      the highest below 24. */
  lemma SinglesNeverWrap(n: Numeral)
    requires AllDigits(n.whole) && AllDigits(n.fraction) && IsReadable(n, 4)
    ensures LastLost(n, 4) == 0.0
  {
    hide UsedMantissa, UsedExponent, Raise, RealPow, LittlenumsOf, Lost, Wraps, LastPower;
    var a, b := LastPower(n, 4).littlenums, LittlenumsOf(UsedMantissa(n, 4));
    PowerOfReading(n, 4);
    ElevenDigitsUsed(n);
    ThreeLittlenums(UsedMantissa(n, 4));
    forall k: nat ensures Wraps(a, b, k) == 0 {
      LowTopNeverWraps(a, b, k);
    }
    LostIffWraps(a, b, |a| + |b| - 1);
  }

  lemma ElevenDigitsUsed(n: Numeral)
    requires AllDigits(n.whole) && AllDigits(n.fraction)
    ensures UsedMantissa(n, 4) < 100000000000
  {
    ElevenDigits();
    hide DecimalNat, MaximumUsefulDigits, UsefulDigits, Ten;
    var used := DigitsUsed(n, 4);
    DecimalBound(UsefulDigits(n)[..used]);
    TenMonotone(used, 11);
    TenEleven();
  }

  lemma TenEleven()
    ensures Ten(11) == 100000000000
  {
    assert Ten(3) == 1000;
    hide Ten;
    TenValues();
    TenAdd(8, 3);
  }

  /** In the room for a double it never wraps when the digits are safe. */
  lemma SafeDigitsNeverWrap(n: Numeral)
    requires AllDigits(n.whole) && AllDigits(n.fraction) && IsReadable(n, 6) && IsSafe(LittlenumsOf(UsedMantissa(n, 6)))
    ensures LastLost(n, 6) == 0.0
  {
    hide UsedMantissa, UsedExponent, Raise, RealPow, LittlenumsOf, AllLost, LastPower;
    PowerOfReading(n, 6);
    SafeWithAny(LastPower(n, 6).littlenums, LittlenumsOf(UsedMantissa(n, 6)));
  }

  /** Up to fourteen digits are. */
  lemma FourteenDigitsAreSafe(d: nat)
    requires d < 100000000000000
    ensures IsSafe(LittlenumsOf(d))
  {
    hide IsSafe;
    ThreeLittlenums(d);
    LowTopIsSafe(LittlenumsOf(d));
  }

  lemma ThreeLittlenums(d: nat)
    requires d < 100000000000000
    ensures var s := LittlenumsOf(d); |s| <= 2 || (|s| == 3 && s[2] <= 23283)
  {
    if d >= WORD {
      var top := d / RADIX / RADIX;
      assert top <= 23283 && LittlenumsOf(top) == [top];
      assert LittlenumsOf(d / RADIX) == [d / RADIX % RADIX] + [top];
    } else {
      TwoAtMost(d);
    }
  }

  // ---------------------------------------------------------------- the encoded number

  function Gap(value: real, d: nat): real {
    if value <= d as real then d as real - value else value - d as real
  }

  /** No other number of the format is nearer to the value, counted in the smallest denormal, by more than the slack. */
  ghost predicate AlmostNearest(f: Format, value: real, magnitude: nat, slack: real) {
    magnitude <= Infinity(f) &&
    forall other: nat :: other <= Infinity(f) ==>
      Gap(value, Decode(f, magnitude)) <= Gap(value, Decode(f, other)) + slack
  }

  lemma {:induction false} RadixIsTwo(e: int)
    ensures RealPow(RADIX, e) == RealPow(2, 16 * e)
  {
    if e >= 0 {
      RPowIsPow2(e);
    } else {
      RPowIsPow2(-e);
    }
  }

  /** Distances of fractions, as distances of their values. */
  lemma GapOfFraction(num: nat, den: nat, value: real, d: nat, d': nat)
    requires den > 0 && value * den as real == num as real && Distance(num, den * d) <= Distance(num, den * d')
    ensures Gap(value, d) <= Gap(value, d')
  {
    hide Gap, Distance;
    ScaledGap(num, den, value, d);
    ScaledGap(num, den, value, d');
    if Gap(value, d) > Gap(value, d') {
      StrictlyMore(Gap(value, d'), Gap(value, d), den as real);
    }
  }

  lemma StrictlyMore(a: real, b: real, c: real)
    requires a < b && c > 0.0
    ensures a * c < b * c
  {
    assert (b - a) * c > 0.0;
  }

  lemma ScaledGap(num: nat, den: nat, value: real, d: nat)
    requires den > 0 && value * den as real == num as real
    ensures Gap(value, d) * den as real == Distance(num, den * d) as real
  {
    RealProduct(den, d);
    if value <= d as real {
      RealMonotone(value, d as real, den as real);
    } else {
      RealMonotone(d as real, value, den as real);
    }
  }

  /** The encoder's number is nearest to the flonum itself. */
  lemma NearestToReading(f: Format, r: Power, value: real)
    requires IsFOrD(f) && Nat(r.littlenums) > 0 && TakesRightBranch(f, r)
    requires value == Worth(r) * RealPow(2, Places(f))
    ensures AlmostNearest(f, value, MagnitudeOf(f, r), 0.0)
  {
    hide Nat, RealPow, Pow2, Decode, Infinity, Bias, Magnitude, BitLength, IsRight, Gap, NoFurther;
    var v, k := Nat(r.littlenums), 16 * r.exponent + Places(f);
    var up, down: nat := if k >= 0 then k else 0, if k >= 0 then 0 else -k;
    NearestExactlyIfRight(f, v, r.exponent, up, down);
    var m := MagnitudeOf(f, r);
    ValueOfFraction(r, Places(f), up, down);
    forall other: nat | other <= Infinity(f)
      ensures Gap(value, Decode(f, m)) <= Gap(value, Decode(f, other)) + 0.0
    {
      assert NoFurther(f, v * Pow2(up), Pow2(down), m, other);
      NoFurtherGap(f, v * Pow2(up), Pow2(down), m, other, value);
    }
  }

  lemma NoFurtherGap(f: Format, num: nat, den: nat, m: nat, other: nat, value: real)
    requires den > 0 && value * den as real == num as real && NoFurther(f, num, den, m, other)
    ensures Gap(value, Decode(f, m)) <= Gap(value, Decode(f, other))
  {
    hide Decode;
    GapOfFraction(num, den, value, Decode(f, m), Decode(f, other));
  }

  lemma ValueOfFraction(r: Power, places: int, up: nat, down: nat)
    requires up - down == 16 * r.exponent + places
    ensures (Worth(r) * RealPow(2, places)) * Pow2(down) as real == (Nat(r.littlenums) * Pow2(up)) as real
  {
    hide Nat, RealPow, Pow;
    RadixIsTwo(r.exponent);
    RealPowAdd(2, 16 * r.exponent, places);
    RealPowAdd(2, 16 * r.exponent + places, down);
    NaturalPow(2, up);
    NaturalPow(2, down);
    RealProduct(Nat(r.littlenums), Pow2(up));
    Reordered(Nat(r.littlenums) as real, RealPow(RADIX, r.exponent), RealPow(2, places), RealPow(2, down));
  }

  lemma Reordered(v: real, x: real, y: real, z: real)
    ensures ((v * x) * y) * z == v * ((x * y) * z)
  {
  }

  /** Nearest to a number near the value is almost nearest to the value. */
  lemma AlmostNearestTo(f: Format, w: real, value: real, m: nat, error: real, slack: real)
    requires AlmostNearest(f, w, m, 0.0) && value - error <= w <= value + error && slack == 2.0 * error
    ensures AlmostNearest(f, value, m, slack)
  {
    hide Decode, Infinity;
  }

  /** The numeral's value, counted in the smallest denormal. */
  function UnitsOf(f: Format, n: Numeral): real
    requires IsFOrD(f) && AllDigits(n.whole) && AllDigits(n.fraction)
  {
    ValueOf(n) * RealPow(2, Places(f))
  }

  /** Twice the error of its reading. */
  function Slack(f: Format, n: Numeral, capacity: nat): real
    requires IsFOrD(f) && AllDigits(n.whole) && AllDigits(n.fraction) && IsReadable(n, capacity)
  {
    2.0 * (UnitsOf(f, n) * ReadingError(n, capacity))
  }

  /** The same, with what the last multiplication loses in wraps. */
  function LossySlack(f: Format, n: Numeral, capacity: nat): real
    requires IsFOrD(f) && AllDigits(n.whole) && AllDigits(n.fraction) && IsReadable(n, capacity)
  {
    2.0 * (UnitsOf(f, n) * ReadingError(n, capacity) + LastLost(n, capacity) * RealPow(2, Places(f)))
  }

  /** Every numeral that can be read is encoded as a number than which no other of the format is nearer to its value by
      more than twice the error of the reading and what its wraps have lost. */
  lemma LossyNumeralIsAlmostNearest(f: Format, n: Numeral, capacity: nat)
    requires IsFOrD(f) && AllDigits(n.whole) && AllDigits(n.fraction) && IsReadable(n, capacity)
    requires TakesRightBranch(f, Reading(n, capacity).power)
    ensures AlmostNearest(f, UnitsOf(f, n), MagnitudeOf(f, Reading(n, capacity).power), LossySlack(f, n, capacity))
  {
    hide Reading, AlmostNearest, ReadingError, TakesRightBranch, MagnitudeOf, Worth, RealPow, UsedMantissa, UsedExponent;
    hide LastLost, ValueOf, Nat, Places;
    var r := Reading(n, capacity).power;
    ReadingIsNearValue(n, capacity);
    ReadingIsPositive(n, capacity);
    LostIsPositive(n, capacity);
    var u, e, lost := RealPow(2, Places(f)), ReadingError(n, capacity), LastLost(n, capacity);
    var w, value, left := Worth(r) * u, UnitsOf(f, n), (Worth(r) + lost) * u;
    NearestToReading(f, r, w);
    NearScaled(Worth(r) + lost, ValueOf(n), e, u, left, value);
    Spread(left, value, e);
    NotNegative(lost, u);
    NotNegative(ValueOf(n), u);
    NotNegative(value, e);
    AlmostNearestTo(f, w, value, MagnitudeOf(f, r), value * e + lost * u, LossySlack(f, n, capacity));
  }

  lemma LostIsPositive(n: Numeral, capacity: nat)
    requires AllDigits(n.whole) && AllDigits(n.fraction) && IsReadable(n, capacity)
    ensures LastLost(n, capacity) >= 0.0
  {
    hide UsedMantissa, UsedExponent, LastPower, AllLost, RealPow, LittlenumsOf;
    var power := LastPower(n, capacity);
    PowerOfReading(n, capacity);
    NotNegative(AllLost(power.littlenums, LittlenumsOf(UsedMantissa(n, capacity))) as real, RealPow(RADIX, power.exponent));
  }

  /** The main result: a numeral that can be read, and for a double with digits that are safe, is encoded as a number than
      which no other of the format is nearer to its value by more than twice the error of the reading. */
  lemma NumeralIsAlmostNearest(f: Format, n: Numeral, capacity: nat)
    requires IsFOrD(f) && AllDigits(n.whole) && AllDigits(n.fraction) && IsReadable(n, capacity)
    requires capacity == 6 ==> IsSafe(LittlenumsOf(UsedMantissa(n, capacity)))
    requires TakesRightBranch(f, Reading(n, capacity).power)
    ensures AlmostNearest(f, UnitsOf(f, n), MagnitudeOf(f, Reading(n, capacity).power), Slack(f, n, capacity))
  {
    hide Reading, AlmostNearest, TakesRightBranch, MagnitudeOf, UsedMantissa, UsedExponent, LastLost, ReadingError, UnitsOf;
    hide RealPow, Places, LittlenumsOf, IsSafe;
    if capacity == 6 {
      SafeDigitsNeverWrap(n);
    } else {
      SinglesNeverWrap(n);
    }
    LossyNumeralIsAlmostNearest(f, n, capacity);
    NothingMore(UnitsOf(f, n) * ReadingError(n, capacity), LastLost(n, capacity), RealPow(2, Places(f)), Slack(f, n, capacity),
                LossySlack(f, n, capacity));
  }

  lemma NothingMore(e: real, lost: real, u: real, slack: real, lossy: real)
    requires lost == 0.0 && slack == 2.0 * e && lossy == 2.0 * (e + lost * u)
    ensures slack == lossy
  {
  }

  lemma Spread(w: real, value: real, e: real)
    requires Near(w, value, e)
    ensures value - value * e <= w <= value + value * e
  {
  }

  lemma ReadingIsPositive(n: Numeral, capacity: nat)
    requires AllDigits(n.whole) && AllDigits(n.fraction) && IsReadable(n, capacity)
    ensures Nat(Reading(n, capacity).power.littlenums) > 0
  {
    hide Reading, Nat, UsedMantissa, UsedExponent, ProductOf;
    ReadingIsProduct(n, capacity);
    ReadingIsNormal(n, capacity);
    NatLeader(Reading(n, capacity).power.littlenums);
  }

  /** 2^-58 in the room for a double and 2^-30 in that for a single. */
  function Share(capacity: nat): real {
    if capacity == 6 then 1.0 / 288230376151711744.0 else 1.0 / 1073741824.0
  }

  /** That share of the numeral. */
  function SmallSlack(f: Format, n: Numeral, capacity: nat): real
    requires IsFOrD(f) && AllDigits(n.whole) && AllDigits(n.fraction)
  {
    UnitsOf(f, n) * Share(capacity)
  }

  lemma LastCutIsSmall(capacity: nat)
    requires IsRoom(capacity)
    ensures 2.0 * (27.5 * Grain(capacity) + RealPow(RADIX, 2 - capacity)) <= Share(capacity)
  {
    hide RealPow, Pow;
    RadixPowers();
    NaturalPow(RADIX, capacity - 2);
    assert RPow(capacity - 2) == if capacity == 6 then 0x1_0000_0000_0000_0000 else 0x1_0000_0000;
  }

  lemma MoreSlack(f: Format, value: real, m: nat, slack: real, more: real)
    requires AlmostNearest(f, value, m, slack) && slack <= more
    ensures AlmostNearest(f, value, m, more)
  {
    hide Decode, Infinity, Gap;
  }

  /** When the last multiplication fills all but one littlenum of its room, the slack is less than this share of the
      numeral. */
  lemma CutIsAlmostNearest(f: Format, n: Numeral, capacity: nat)
    requires IsFOrD(f) && AllDigits(n.whole) && AllDigits(n.fraction) && IsReadable(n, capacity)
    requires |UsefulDigits(n)| <= MaximumUsefulDigits(capacity) && LastCut(n, capacity) <= RealPow(RADIX, 2 - capacity)
    requires capacity == 6 ==> IsSafe(LittlenumsOf(UsedMantissa(n, capacity)))
    requires TakesRightBranch(f, Reading(n, capacity).power)
    ensures AlmostNearest(f, UnitsOf(f, n), MagnitudeOf(f, Reading(n, capacity).power), SmallSlack(f, n, capacity))
  {
    hide Reading, AlmostNearest, TakesRightBranch, MagnitudeOf, RealPow, UsedMantissa, UsedExponent, UsefulDigits, LastLost;
    hide ValueOf, Places, MaximumUsefulDigits, LastCut, Grain, Share, LittlenumsOf, IsSafe;
    NumeralIsAlmostNearest(f, n, capacity);
    LastCutIsSmall(capacity);
    ReadingIsNearValue(n, capacity);
    assert DigitShare(n, capacity) == 0.0;
    NotNegative(ValueOf(n), RealPow(2, Places(f)));
    Doubled(UnitsOf(f, n), ReadingError(n, capacity), Share(capacity), Slack(f, n, capacity), SmallSlack(f, n, capacity));
    MoreSlack(f, UnitsOf(f, n), MagnitudeOf(f, Reading(n, capacity).power), Slack(f, n, capacity), SmallSlack(f, n, capacity));
  }

  /** In numbers: with up to nine digits and any exponent that can be read, positive or negative, no other number of the
      format is nearer to the numeral by more than this share of it. For a double that is at most a thirty-second part of
      the distance between neighbours, which is at least 2^-53 of a normal number. */
  lemma NineDigitsAreAlmostNearest(f: Format, n: Numeral, capacity: nat)
    requires IsFOrD(f) && AllDigits(n.whole) && AllDigits(n.fraction) && IsReadable(n, capacity)
    requires |UsefulDigits(n)| <= MaximumUsefulDigits(capacity) && UsedMantissa(n, capacity) < WORD
    requires TakesRightBranch(f, Reading(n, capacity).power)
    ensures AlmostNearest(f, UnitsOf(f, n), MagnitudeOf(f, Reading(n, capacity).power), SmallSlack(f, n, capacity))
  {
    hide Reading, AlmostNearest, TakesRightBranch, MagnitudeOf, RealPow, UsedMantissa, UsedExponent, UsefulDigits, LastLost;
    hide UnitsOf, MaximumUsefulDigits, LastCut, Share, SmallSlack, LittlenumsOf, IsSafe;
    ShortDigits(n, capacity);
    FourteenDigitsAreSafe(UsedMantissa(n, capacity));
    CutIsAlmostNearest(f, n, capacity);
  }

  lemma Doubled(value: real, e: real, share: real, slack: real, small: real)
    requires value >= 0.0 && 2.0 * e <= share && slack == 2.0 * (value * e) && small == value * share
    ensures slack <= small
  {
    RealMonotone(2.0 * e, share, value);
  }
}
