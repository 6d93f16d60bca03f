/** atof_ieee (cctools/as/atof-ieee.c): from the text of a decimal numeral to the words of a number. */
module DecimalToIeee {
  import opened Arith
  import opened DecimalFlonum
  import opened IeeeWords
  import opened Bignum
  import opened BitReader
  import opened Decimal
  import opened Encoding
  import opened Ieee754
  import opened Multiply
  import opened PowerLoop
  import opened PowersOfTen
  import opened Words
  import F = Flonum

  const GUARD := 2

  /** The littlenums that the number is read into. */
  function Room(precision: nat): nat {
    precision + GUARD
  }

  // ---------------------------------------------------------------- the nearest number

  lemma DistanceScales(a: nat, b: nat, t: nat)
    ensures Distance(a * t, b * t) == Distance(a, b) * t
  {
    if a <= b {
      assert (b - a) * t == b * t - a * t;
      MulMonotone(a, b, t);
    } else {
      assert (a - b) * t == a * t - b * t;
      MulMonotone(b, a, t);
    }
  }

  lemma OrderScales(a: nat, b: nat, t: nat)
    requires t > 0
    ensures a * t <= b * t <==> a <= b
    ensures a * t == b * t <==> a == b
  {
    MulPlusOne(a, t);
    MulPlusOne(b, t);
    if a < b {
      MulMonotone(a + 1, b, t);
    } else if b < a {
      MulMonotone(b + 1, a, t);
    }
  }

  lemma NoFurtherScales(f: Format, num: nat, den: nat, t: nat, magnitude: nat, other: nat)
    requires t > 0
    ensures NoFurther(f, num * t, den * t, magnitude, other) <==> NoFurther(f, num, den, magnitude, other)
  {
    hide Decode, Distance;
    var a, b := Decode(f, magnitude), Decode(f, other);
    Regroup(den, t, a);
    Regroup(den, t, b);
    assert (den * t) * a == (den * a) * t && (den * t) * b == (den * b) * t;
    DistanceScales(num, den * a, t);
    DistanceScales(num, den * b, t);
    OrderScales(Distance(num, den * a), Distance(num, den * b), t);
  }

  /** It is the same number when numerator and denominator are both multiplied. */
  lemma NearestScales(f: Format, num: nat, den: nat, t: nat, magnitude: nat)
    requires t > 0
    ensures Nearest(f, num * t, den * t, magnitude) <==> Nearest(f, num, den, magnitude)
  {
    hide NoFurther;
    forall other: nat
      ensures NoFurther(f, num * t, den * t, magnitude, other) <==> NoFurther(f, num, den, magnitude, other)
    {
      NoFurtherScales(f, num, den, t, magnitude, other);
    }
  }

  /** The unit of the encodings is 2^-Places. */
  function Places(f: Format): nat
    requires IsFOrD(f)
  {
    BiasIsPositive(f);
    Bias(f) + f.fraction - 1
  }

  lemma BiasIsPositive(f: Format)
    requires IsFOrD(f)
    ensures Bias(f) == if f == SINGLE then 127 else 1023
  {
    assert Pow2(7) == 128 && Pow2(10) == 1024;
  }

  /** The number mantissa * 10^(a - b) is nearest to the encoding with this magnitude. */
  ghost predicate NearestToDecimal(f: Format, mantissa: nat, a: nat, b: nat, magnitude: nat)
    requires IsFOrD(f)
  {
    Nearest(f, mantissa * Ten(a) * Pow2(Places(f)), Ten(b), magnitude)
  }

  /** The magnitude that the encoder gives to a flonum. */
  function MagnitudeOf(f: Format, r: Power): nat {
    Magnitude(f, Nat(r.littlenums), BiasedExponent(f, Nat(r.littlenums), r.exponent))
  }

  predicate TakesRightBranch(f: Format, r: Power) {
    IsRight(f, Nat(r.littlenums), BiasedExponent(f, Nat(r.littlenums), r.exponent))
  }

  /** A flonum with the value of a decimal number is encoded as the number nearest to it, ties away from zero,
      exactly when the encoder takes one of its right branches. */
  lemma DecimalIsNearestIff(f: Format, r: Power, mantissa: nat, a: nat, b: nat)
    requires IsFOrD(f) && r.exponent >= 0 && mantissa > 0 && Value(r) * Ten(b) == mantissa * Ten(a)
    ensures NearestToDecimal(f, mantissa, a, b, MagnitudeOf(f, r)) <==> TakesRightBranch(f, r)
  {
    hide Ten, Pow2, Nearest, Magnitude, IsRight, Nat, Bias, RPow, BitLength;
    var v, k := Nat(r.littlenums), Places(f);
    Positives(mantissa, Ten(a), Value(r), Ten(b));
    RPowIsPow2(r.exponent);
    Positives(Value(r), 1, v, RPow(r.exponent));
    Pow2Add(16 * r.exponent, k);
    NearestExactlyIfRight(f, v, r.exponent, 16 * r.exponent + k, 0);
    Pow2Zero();
    NearestScales(f, v * Pow2(16 * r.exponent + k), 1, Ten(b), MagnitudeOf(f, r));
    SameNumber(v, Pow2(16 * r.exponent), Pow2(k), Ten(b), mantissa * Ten(a));
  }

  /** So is a numeral that is read exactly. */
  lemma NumeralIsNearestIff(f: Format, n: Numeral, capacity: nat, a: nat, b: nat)
    requires IsFOrD(f) && AllDigits(n.whole) && AllDigits(n.fraction) && capacity > 2
    requires Mantissa(n) > 0 && ReadsExactly(n, capacity) && a - b == n.exponent - |n.fraction|
    ensures NearestToDecimal(f, Mantissa(n), a, b, MagnitudeOf(f, Reading(n, capacity).power))
      <==> TakesRightBranch(f, Reading(n, capacity).power)
  {
    hide *;
    ReadingIsExact(n, capacity, a, b);
    DecimalIsNearestIff(f, Reading(n, capacity).power, Mantissa(n), a, b);
  }

  lemma Positives(m: nat, p: nat, v: nat, q: nat)
    requires m > 0 && p > 0 && v * q == m * p
    ensures v > 0
  {
    MulAtLeast(m, p);
  }

  lemma SameNumber(v: nat, p: nat, k: nat, t: nat, m: nat)
    requires (v * p) * t == m
    ensures (v * (p * k)) * t == m * k
  {
    assert (v * (p * k)) * t == ((v * p) * t) * k;
  }

  lemma {:induction false} BitLengthShift(v: nat, k: nat)
    requires v > 0
    ensures v * Pow2(k) > 0 && BitLength(v * Pow2(k)) == BitLength(v) + k
  {
    hide BitLength, Pow2;
    BitLengthBounds(v);
    var b := BitLength(v);
    Pow2Add(b, k);
    Pow2Add(b - 1, k);
    ProductBetween(Pow2(b - 1), v, Pow2(b), Pow2(k));
    BitLengthUnique(v * Pow2(k), b + k);
  }

  /** Whole numbers of up to 82 bits have a normal exponent in both formats. */
  lemma SmallIsRight(f: Format, r: Power)
    requires IsFOrD(f) && r.exponent >= 0 && 0 < Value(r) < Pow2(82)
    ensures TakesRightBranch(f, r)
  {
    hide BitLength, Pow2, Nat, RPow, Bias, CarryIsLost, Rounded;
    var v := Nat(r.littlenums);
    RPowIsPow2(r.exponent);
    Positives(Value(r), 1, v, RPow(r.exponent));
    BitLengthShift(v, 16 * r.exponent);
    BitLengthBounds(v);
    BitLengthBounds(Value(r));
    if BitLength(Value(r)) > 82 {
      Pow2Monotone(82, BitLength(Value(r)) - 1);
    }
    BiasIsPositive(f);
    ExponentRoom(f);
  }

  lemma ExponentRoom(f: Format)
    requires IsFOrD(f)
    ensures Pow2(f.exponentBits) == if f == SINGLE then 256 else 2048
  {
    assert Pow2(8) == 256 && Pow2(11) == 2048;
  }

  lemma FifteenDigits(d: nat, x: nat)
    requires 0 < d < WORD && x <= 15
    ensures 0 < d * Ten(x) < Pow2(82)
  {
    WordIsPow2();
    hide Ten, Pow2;
    TenMonotone(x, 15);
    TenFifteen();
    Pow2Add(32, 50);
    MulAtLeast(d, Ten(x));
    MulMonotone(Ten(x), Ten(15), d);
    MulMonotone(d, WORD, Ten(15));
  }

  lemma WordIsPow2()
    ensures Pow2(32) == WORD && Pow2(50) > 1000000000000000
  {
    Pow2Sixteen();
    assert Pow2(2) == 4;
    hide Pow2;
    Pow2Add(16, 16);
    Pow2Add(32, 16);
    Pow2Add(48, 2);
  }

  /** The main result: a numeral with a mantissa below 2^32 and a decimal exponent up to 15 (up to 9 for a
      single) is encoded as the number nearest to it, ties away from zero. */
  lemma ShortNumeralIsNearest(f: Format, n: Numeral, capacity: nat, a: nat, b: nat)
    requires IsFOrD(f) && AllDigits(n.whole) && AllDigits(n.fraction) && capacity >= 4
    requires IsShort(n, capacity) && a - b == n.exponent - |n.fraction|
    ensures NearestToDecimal(f, Mantissa(n), a, b, MagnitudeOf(f, Reading(n, capacity).power))
  {
    hide Reading, ReadsExactly, Mantissa, UsedMantissa, UsedExponent, UsefulDigits, MaximumUsefulDigits, Value, Ten, Pow2;
    hide NearestToDecimal, MagnitudeOf, TakesRightBranch, AllDigits;
    ShortNumeralsReadExactly(n, capacity);
    PositiveQuotient(n, capacity);
    ReadingValue(n, capacity);
    FifteenDigits(UsedMantissa(n, capacity), UsedExponent(n, capacity));
    SmallIsRight(f, Reading(n, capacity).power);
    NumeralIsNearestIff(f, n, capacity, a, b);
  }

  // ---------------------------------------------------------------- atof_ieee

  /** Of what is read of any numeral, fewer than sixteen leading bits are zeros, so that the seek for the first
      significant bit always ends, after sixteen reads at most. */
  lemma SeekIsShort(n: Numeral, capacity: nat)
    requires AllDigits(n.whole) && AllDigits(n.fraction) && capacity > 2
    ensures var s := Reading(n, capacity).power.littlenums;
      s != [] ==> Normal(s) && !AllZero(s) && 16 * |s| - BitLength(Nat(s)) < 16
  {
    hide Reading, BitLength, Nat, AllDigits;
    ReadingIsNormal(n, capacity);
    var s := Reading(n, capacity).power.littlenums;
    if s != [] {
      LeaderBits(s, Nat(s));
    }
  }

  /** What the words must be for the text at start, and where the number ends. What an earlier number has left above the lowest littlenum is not
      known; it matters only for a single bit that is put back (LoneBitIsLostIff). */
  ghost predicate AreWordsFor(text: string, start: nat, exponentMarks: string, f: Format, capacity: nat, encoded: nat, end: nat)
    requires capacity > 2
  {
    var p := SignEnd(text, start);
    var sign := if At(text, start) == '-' then SignBit(f) else 0;
    if IsNan(text, p) then encoded == SignBit(f) - 1 && end == p + 3
    else if IsInf(text, p) then encoded == sign + Infinity(f) && end == if IsInity(text, p + 3) then p + 8 else p + 3
    else
      var n := NumeralAt(text, start, ".", exponentMarks);
      var r := Reading(n, capacity);
      end == n.end &&
      if r.overflow then encoded == sign + Infinity(f)
      else IsSomeEncodingOf(f, if n.negative then '-' else '+', r.power.littlenums, r.power.exponent, encoded)
  }

  ghost predicate IsSomeEncodingOf(f: Format, sign: char, s: seq<Littlenum>, exponent: int, encoded: nat) {
    exists above :: IsEncodingOf(f, sign, s, exponent, above, encoded)
  }

  /** atof_ieee for the formats F and D. */
  method AtofIeee(text: string, start: nat, precision: nat, exponentBits: nat, exponentMarks: string, words: array<Littlenum>)
    returns (end: nat)
    requires start <= |text| && '\0' !in text && AreMarks(exponentMarks)
    requires Supported(precision, exponentBits) && words.Length >= MAX_PRECISION
    modifies words
    ensures end <= |text|
    ensures AreWordsFor(text, start, exponentMarks, FormatOf(precision, exponentBits), Room(precision), Big(words[..precision]), end)
  {
    hide Big, Reading, IsEncodingOf, SignBit, Infinity, NumeralAt, IsNan, IsInf, IsInity;
    var number := new F.Flonum(Room(precision));
    var overflow;
    overflow, end := AtofGeneric(text, start, ".", exponentMarks, number);
    NegativeNumeral(text, start, ".", exponentMarks);
    if overflow {
      StoreInfinity(words, precision, exponentBits, number.sign == '-');
    } else {
      SeekIsShort(NumeralAt(text, start, ".", exponentMarks), Room(precision));
      GenToWords(number, words, precision, exponentBits);
      SpecialEncodings(FormatOf(precision, exponentBits), number.sign, number.Littlenums(), number.exponent, number.low[1],
                       Big(words[..precision]));
    }
  }

  lemma SpecialEncodings(f: Format, sign: char, s: seq<Littlenum>, exponent: int, above: Littlenum, encoded: nat)
    requires IsEncodingOf(f, sign, s, exponent, above, encoded)
    ensures s != [] && sign == '\0' ==> encoded == SignBit(f) - 1
    ensures s != [] && sign == 'P' ==> encoded == Infinity(f)
    ensures s != [] && sign == 'N' ==> encoded == SignBit(f) + Infinity(f)
  {
    hide SignBit, Infinity, EncodedFrom;
  }
}
