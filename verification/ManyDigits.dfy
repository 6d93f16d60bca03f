/** How near numerals with many digits come to being encoded as the nearest number (cctools/as/atof-generic.c,
    cctools/as/atof-ieee.c). */
module ManyDigits {
  import opened Bignum
  import opened ComputedPowers
  import opened Decimal
  import opened DecimalFlonum
  import opened DecimalToIeee
  import opened Encoding
  import opened Ieee754
  import opened Multiply
  import opened Nearness
  import opened NormalForm
  import opened PowerLoop
  import opened ProductErrors
  import opened ReadingAccuracy
  import opened SafeDigits

  /** The power has no zero at its low end, and for a negative exponent fills its room. */
  lemma SmallPower(n: Numeral)
    requires AllDigits(n.whole) && AllDigits(n.fraction) && IsReadable(n, 6) && -31 <= UsedExponent(n, 6) <= 31
    ensures var a := LastPower(n, 6).littlenums;
      && IsNormalIn(a, 6) && LowZeros(a) == 0
      && (UsedExponent(n, 6) < 0 ==> |a| == 6) && (UsedExponent(n, 6) == 0 ==> |a| == 1)
  {
    hide UsedMantissa, UsedExponent, LowZeros, AllDigits;
    PowerOfReading(n, 6);
    var x := UsedExponent(n, 6);
    SmallPowerStarts(if x < 0 then -x else x, x < 0);
  }

  lemma FewZerosFill(a: seq<Littlenum>, b: seq<Littlenum>)
    requires Normal(a) && Normal(b) && LowZeros(a) == 0 && |b| <= 6
    requires |a| == 6 || |a| == 1 || b[0] != 0
    ensures NearlyFills(a, b, 6)
  {
    LoneZeros(b);
    if b[0] != 0 {
      NoLowZeros(b);
    }
    hide LowZeros;
  }

  lemma DigitsStart(d: nat)
    requires d > 0
    ensures LittlenumsOf(d)[0] == d % RADIX
  {
  }

  lemma SmallExponentFills(n: Numeral)
    requires AllDigits(n.whole) && AllDigits(n.fraction) && IsReadable(n, 6) && -31 <= UsedExponent(n, 6) <= 31
    requires UsedExponent(n, 6) <= 0 || UsedMantissa(n, 6) % RADIX != 0
    ensures NearlyFills(LastPower(n, 6).littlenums, LittlenumsOf(UsedMantissa(n, 6)), 6)
  {
    hide UsedMantissa, UsedExponent, LittlenumsOf, LastPower, AllDigits, LowZeros, NearlyFills, Reading, ProductOf;
    var d := UsedMantissa(n, 6);
    SmallPower(n);
    ReadingIsProduct(n, 6);
    DigitsFit(n, 6);
    DigitsStart(d);
    FewZerosFill(LastPower(n, 6).littlenums, LittlenumsOf(d));
  }

  lemma NoneLost(n: Numeral, capacity: nat)
    requires AllDigits(n.whole) && AllDigits(n.fraction) && IsReadable(n, capacity)
    requires capacity == 6 ==> IsSafe(LittlenumsOf(UsedMantissa(n, capacity)))
    ensures AllLost(LastPower(n, capacity).littlenums, LittlenumsOf(UsedMantissa(n, capacity))) == 0
  {
    hide UsedMantissa, UsedExponent, LittlenumsOf, LastPower, AllDigits, RealPow, AllLost;
    PowerOfReading(n, capacity);
    if capacity == 6 {
      SafeDigitsNeverWrap(n);
    } else {
      SinglesNeverWrap(n);
    }
    var power := LastPower(n, capacity);
    OtherFactor(AllLost(power.littlenums, LittlenumsOf(UsedMantissa(n, capacity))) as real, RealPow(RADIX, power.exponent));
  }

  lemma OtherFactor(x: real, y: real)
    requires x * y == 0.0 && y > 0.0
    ensures x == 0.0
  {
  }

  lemma FillingCut(n: Numeral, capacity: nat)
    requires AllDigits(n.whole) && AllDigits(n.fraction) && IsReadable(n, capacity)
    requires capacity == 6 ==> IsSafe(LittlenumsOf(UsedMantissa(n, capacity)))
    requires NearlyFills(LastPower(n, capacity).littlenums, LittlenumsOf(UsedMantissa(n, capacity)), capacity)
    ensures LastCut(n, capacity) <= RealPow(RADIX, 2 - capacity)
  {
    hide UsedMantissa, UsedExponent, LittlenumsOf, LastPower, AllDigits, RealPow, Cut, LowZeros, AllLost, ProductOf, Reading;
    hide NearlyFills, IsSafe;
    PowerOfReading(n, capacity);
    ReadingIsProduct(n, capacity);
    DigitsFit(n, capacity);
    NoneLost(n, capacity);
    NearlyFullCut(LastPower(n, capacity).littlenums, LittlenumsOf(UsedMantissa(n, capacity)), capacity);
  }

  /** With all digits used, that is up to eleven for a single and twenty-one for a double, no other number of the format is
      nearer to the numeral by more than 2^-30 and 2^-58 of it, when the littlenums of the power and of the digits do not
      both end in many zeros, and the digits of a double are safe. */
  lemma FillingIsAlmostNearest(f: Format, n: Numeral, capacity: nat)
    requires IsFOrD(f) && AllDigits(n.whole) && AllDigits(n.fraction) && IsReadable(n, capacity)
    requires |UsefulDigits(n)| <= MaximumUsefulDigits(capacity)
    requires capacity == 6 ==> IsSafe(LittlenumsOf(UsedMantissa(n, capacity)))
    requires NearlyFills(LastPower(n, capacity).littlenums, LittlenumsOf(UsedMantissa(n, capacity)), capacity)
    requires TakesRightBranch(f, Reading(n, capacity).power)
    ensures AlmostNearest(f, UnitsOf(f, n), MagnitudeOf(f, Reading(n, capacity).power), SmallSlack(f, n, capacity))
  {
    hide UsedMantissa, UsedExponent, LittlenumsOf, AllDigits, RealPow, Reading, AlmostNearest, TakesRightBranch, MagnitudeOf;
    hide UnitsOf, LastCut, LastPower, SmallSlack, UsefulDigits, MaximumUsefulDigits, IsSafe, NearlyFills;
    FillingCut(n, capacity);
    CutIsAlmostNearest(f, n, capacity);
  }

  /** In particular for a double when the decimal exponent of the last digit is between -31 and 31 and, if it is positive, the digits are
      no multiple of 2^16. */
  lemma ManyDigitsAreAlmostNearest(f: Format, n: Numeral)
    requires IsFOrD(f) && AllDigits(n.whole) && AllDigits(n.fraction) && IsReadable(n, 6)
    requires |UsefulDigits(n)| <= MaximumUsefulDigits(6) && -31 <= UsedExponent(n, 6) <= 31
    requires IsSafe(LittlenumsOf(UsedMantissa(n, 6))) && (UsedExponent(n, 6) <= 0 || UsedMantissa(n, 6) % RADIX != 0)
    requires TakesRightBranch(f, Reading(n, 6).power)
    ensures AlmostNearest(f, UnitsOf(f, n), MagnitudeOf(f, Reading(n, 6).power), SmallSlack(f, n, 6))
  {
    hide UsedMantissa, UsedExponent, LittlenumsOf, AllDigits, RealPow, Reading, AlmostNearest, TakesRightBranch, MagnitudeOf;
    hide UnitsOf, LastCut, LastPower, SmallSlack, UsefulDigits, MaximumUsefulDigits, IsSafe, NearlyFills;
    SmallExponentFills(n);
    FillingIsAlmostNearest(f, n, 6);
  }
}
