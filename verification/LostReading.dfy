/** A numeral that atof_generic reads wrong by far more than the errors of its steps: 18446744073709551615e-278, whose last
    multiplication wraps (cctools/as/atof-generic.c, cctools/as/flonum-mult.c). */
module LostReading {
  import opened Arith
  import opened Bignum
  import opened BitReader
  import opened ComputedPowers
  import opened Decimal
  import opened DecimalFlonum
  import opened DecimalToIeee
  import opened Ieee754
  import opened Multiply
  import opened Nearness
  import opened NormalForm
  import opened PowerAccuracy
  import opened PowerErrors
  import opened PowerLoop
  import opened PowerTables
  import opened PowersOfTen
  import opened ProductErrors
  import opened ReadingAccuracy
  import opened SafeDigits

  // ---------------------------------------------------------------- the factors

  /** 10^-278 as the loop computes it, at the place RADIX^-63. */
  const POWER: seq<Littlenum> := [31361, 26037, 65535, 59537, 45224, 22]
  const POWER_NUMBER := 0x16b0a8e891ffff65b57a81

  /** 2^64 - 1, of which all twenty digits are used. */
  const DIGITS: seq<Littlenum> := [0xffff, 0xffff, 0xffff, 0xffff]
  const DIGITS_NUMBER := 0xffff_ffff_ffff_ffff

  lemma FactorNumbers()
    ensures Nat(POWER) == POWER_NUMBER && Nat(DIGITS) == DIGITS_NUMBER
  {
    hide Nat;
    NatZero([]);
    RowNumber(31361, 26037, 65535, 59537, 45224, [22]);
    Consed(22, []);
    assert POWER == [31361, 26037, 65535, 59537, 45224] + [22] && [22] + [] == [22];
    Consed(0xffff, []);
    Consed(0xffff, [0xffff]);
    Consed(0xffff, [0xffff, 0xffff]);
    Consed(0xffff, [0xffff, 0xffff, 0xffff]);
    assert [0xffff] + [] == [0xffff] && [0xffff] + [0xffff] == [0xffff, 0xffff];
    assert [0xffff] + [0xffff, 0xffff] == [0xffff, 0xffff, 0xffff] && [0xffff] + [0xffff, 0xffff, 0xffff] == DIGITS;
  }

  lemma {:induction false} SameLittlenums(s: seq<Littlenum>, t: seq<Littlenum>)
    requires |s| == |t| && Nat(s) == Nat(t)
    ensures s == t
  {
    if s != [] {
      LowestLittlenum(s);
      LowestLittlenum(t);
      SameLittlenums(s[1..], t[1..]);
      assert s == [s[0]] + s[1..] && t == [t[0]] + t[1..];
    }
  }

  lemma DigitsAreLittlenums()
    ensures LittlenumsOf(DIGITS_NUMBER) == DIGITS
  {
    FactorNumbers();
    LittlenumsUnique(DIGITS);
  }

  /** The loop multiplies the entries for 10^-2, 10^-4, 10^-16 and 10^-256. */
  lemma PowerIsComputed()
    ensures Raise(278, 1, true, ONE, 6).power == Power(POWER, -63)
  {
    hide Entry, Times, Nat, Pow, Pow2, IsMinusTen;
    PlaceValues();
    OneIsMinusTen();
    var p2 := Times(Entry(true, 2), ONE, 6);
    MinusStep(2, ONE, 0);
    var p6 := Times(Entry(true, 3), p2, 6);
    MinusStep(3, p2, 2);
    var p22 := Times(Entry(true, 5), p6, 6);
    MinusStep(5, p6, 6);
    LastEntry(p22);
    RaiseSteps(p2, p6, p22);
  }

  lemma OneIsMinusTen()
    ensures IsMinusTen(ONE, 0)
  {
  }

  lemma LastEntry(p22: Power)
    requires IsMinusTen(p22, 22)
    ensures Times(Entry(true, 9), p22, 6) == Power(POWER, -63)
  {
    hide Entry, Times, Nat, RPow, Pow, Follows, IsEntry;
    NinthEntry();
    NinthPlaces();
    FactorNumbers();
    var next := Power96(POWER_NUMBER, -63);
    FollowsWith(next, Entry(true, 9), MINUS_9, p22, MinusTen(22).number, 27, RPow(27), RPow(32));
    NextMinus(9, p22, next);
    SameLittlenums(Times(Entry(true, 9), p22, 6).littlenums, POWER);
  }

  lemma NinthEntry()
    ensures var entry := Entry(true, 9);
      entry.exponent == -80 && |entry.littlenums| == 27 && Nat(entry.littlenums) == MINUS_9
  {
    hide Minus9, Nat, IsEntry;
  }

  lemma NinthPlaces()
    ensures RPow(27) == 0x1000000000000000000000000000000000000000000000000000000000000000000000000000000000000000000000000000000000000
    ensures RPow(32) == 0x100000000000000000000000000000000000000000000000000000000000000000000000000000000000000000000000000000000000000000000000000000000
  {
    hide RPow;
    RPowZero();
    RPowStep(0);
    RPowAdd(1, 1);
    RPowAdd(2, 1);
    RPowAdd(3, 2);
    RPowAdd(3, 3);
    RPowAdd(6, 5);
    RPowAdd(11, 11);
    RPowAdd(22, 5);
    RPowAdd(27, 5);
  }

  lemma RaiseSteps(p2: Power, p6: Power, p22: Power)
    requires p2 == Times(Entry(true, 2), ONE, 6) && p6 == Times(Entry(true, 3), p2, 6) && p22 == Times(Entry(true, 5), p6, 6)
    ensures Raise(278, 1, true, ONE, 6).power == Times(Entry(true, 9), p22, 6)
  {
    hide Entry, Times;
    SameRaise(278, 1, true, ONE, 6);
    assert Raise(139, 2, true, ONE, 6) == Raise(69, 3, true, p2, 6);
    assert Raise(69, 3, true, p2, 6) == Raise(34, 4, true, p6, 6);
    SameRaise(34, 4, true, p6, 6);
    assert Raise(17, 5, true, p6, 6) == Raise(8, 6, true, p22, 6);
    SameRaise(8, 6, true, p22, 6);
    SameRaise(4, 7, true, p22, 6);
    SameRaise(2, 8, true, p22, 6);
    assert Raise(1, 9, true, p22, 6) == Raise(0, 10, true, Times(Entry(true, 9), p22, 6), 6);
  }

  // ---------------------------------------------------------------- the columns

  function ColumnHere(n: nat): nat
    requires n < 9
  {
    match n
    case 0 => 2055243135
    case 1 => 3761577930
    case 2 => 8056414155
    case 3 => 11958171450
    case 4 => 12866683155
    case 5 => 11161790130
    case 6 => 6866953905
    case 7 => 2965196610
    case _ => 1441770
  }

  function FirstHere(n: nat): nat
    requires n < 9
  {
    match n
    case 0 => 2055243135
    case 1 => 2055243135
    case 2 => 2055243135
    case 3 => 2055243135
    case 4 => 1706334795
    case 5 => 4294836225
    case 6 => 3901757295
    case 7 => 2963754840
    case _ => 1441770
  }

  function CarryHere(n: nat): nat
    requires n <= 9
  {
    match n
    case 0 => 0
    case 1 => 31360
    case 2 => 57397
    case 3 => 122932
    case 4 => 182469
    case 5 => 196332
    case 6 => 104782
    case 7 => 104782
    case 8 => 45246
    case _ => 22
  }

  /** What the littlenum at i adds to column n. */
  function Term(a: seq<Littlenum>, b: seq<Littlenum>, n: nat, i: nat): nat
    requires i < |a|
  {
    if i <= n && n - i < |b| then a[i] as int * b[n - i] else 0
  }

  lemma ColumnFrom(a: seq<Littlenum>, b: seq<Littlenum>, n: nat, i: nat)
    requires i < |a| && i <= n
    ensures Column(a[i..], b, n - i) == Term(a, b, n, i) + if i == n then 0 else Column(a[i + 1..], b, n - i - 1)
  {
    assert a[i..][1..] == a[i + 1..];
  }

  lemma ColumnsHere(n: nat)
    requires n < 9
    ensures Column(POWER, DIGITS, n) == ColumnHere(n) && FirstProduct(POWER, DIGITS, n) == FirstHere(n)
  {
    hide Column;
    assert POWER[0..] == POWER;
    ColumnFrom(POWER, DIGITS, n, 0);
    if n >= 1 {
      ColumnFrom(POWER, DIGITS, n, 1);
    }
    if n >= 2 {
      ColumnFrom(POWER, DIGITS, n, 2);
    }
    if n >= 3 {
      ColumnFrom(POWER, DIGITS, n, 3);
    }
    if n >= 4 {
      ColumnFrom(POWER, DIGITS, n, 4);
    }
    if n >= 5 {
      ColumnFrom(POWER, DIGITS, n, 5);
      NoColumn(POWER[6..], DIGITS, n);
    }
  }

  lemma NoColumn(a: seq<Littlenum>, b: seq<Littlenum>, n: nat)
    requires a == []
    ensures forall k: nat :: Column(a, b, k) == 0
  {
  }

  /** Only column 5 wraps, and once. */
  lemma {:induction false} CarriesHere(n: nat)
    requires n <= 9
    ensures CarryInto(POWER, DIGITS, n) == CarryHere(n)
    ensures n < 9 ==> Wraps(POWER, DIGITS, n) == if n == 5 then 1 else 0
  {
    hide Column, FirstProduct, CarryInto, Wraps, POWER, DIGITS;
    if n == 0 {
      NoCarryYet(POWER, DIGITS);
    } else {
      CarriesHere(n - 1);
      ColumnsHere(n - 1);
      NextCarry(POWER, DIGITS, n - 1);
    }
    if n < 9 {
      ColumnsHere(n);
      NextCarry(POWER, DIGITS, n);
    }
  }

  lemma LostHere()
    ensures AllLost(POWER, DIGITS) == WORD * RPow(5)
  {
    hide Lost, Wraps, RPow;
    LostUpTo(9);
  }

  lemma {:induction false} LostUpTo(n: nat)
    requires n <= 9
    ensures Lost(POWER, DIGITS, n) == if n <= 5 then 0 else WORD * RPow(5)
  {
    hide Wraps, RPow, POWER, DIGITS;
    if n > 0 {
      LostUpTo(n - 1);
      CarriesHere(n - 1);
      LostByOne(Wraps(POWER, DIGITS, n - 1), RPow(n - 1));
    }
  }

  lemma LostByOne(w: nat, p: nat)
    requires w <= 1
    ensures WORD * w * p == if w == 0 then 0 else WORD * p
  {
  }

  // ---------------------------------------------------------------- the reading

  const READING_NUMBER := 0x16b0a8e890ffff659ec9d8

  /** The product is short of the right one by what column 5 has lost. */
  lemma ProductHere()
    ensures var p := ProductOf(POWER, DIGITS, 6);
      p.shift == 4 && |p.littlenums| == 6 && Nat(p.littlenums) == READING_NUMBER
  {
    hide Digits, CarryInto, Nat, RPow, AllLost, LowZeros, POWER, DIGITS;
    FactorLengths();
    NoLowZeros(POWER);
    NoLowZeros(DIGITS);
    FewLowZeros(POWER, DIGITS, 9);
    CarriesHere(9);
    LostHere();
    ProductValue(POWER, DIGITS, 6);
    FactorNumbers();
    PlacesHere();
    Quotient(POWER_NUMBER, DIGITS_NUMBER, RPow(5), RPow(4));
  }

  lemma FactorLengths()
    ensures |POWER| == 6 && |DIGITS| == 4 && Normal(POWER) && Normal(DIGITS) && POWER[0] != 0 && DIGITS[0] != 0
  {
  }

  lemma PlacesHere()
    ensures RPow(4) == 0x1_0000_0000_0000_0000 && RPow(5) == 0x1_0000_0000_0000_0000_0000
  {
    hide RPow;
    RadixPowers();
    RPowAdd(4, 1);
  }

  lemma Quotient(m: nat, n: nat, lost: nat, r: nat)
    requires m == POWER_NUMBER && n == DIGITS_NUMBER && lost == 0x1_0000_0000_0000_0000_0000 && r == 0x1_0000_0000_0000_0000
    ensures m * n - WORD * lost >= 0 && (m * n - WORD * lost) / r == READING_NUMBER
  {
  }

  /** The numeral 18446744073709551615e-278. */
  predicate IsTheNumeral(n: Numeral) {
    n.whole == DecimalText(DIGITS_NUMBER) && n.fraction == "" && n.exponent == -278
  }

  lemma TwentyOneDigits()
    ensures MaximumUsefulDigits(6) == 21
  {
  }

  lemma TenTwenty()
    ensures DIGITS_NUMBER < Ten(20)
  {
    hide Ten;
    TenValues();
    TenAdd(16, 4);
  }

  /** All its digits are used. */
  lemma DigitsUsedHere(n: Numeral)
    requires IsTheNumeral(n)
    ensures AllDigits(n.whole) && AllDigits(n.fraction)
    ensures |UsefulDigits(n)| <= MaximumUsefulDigits(6) && Mantissa(n) == DIGITS_NUMBER
    ensures UsedMantissa(n, 6) == DIGITS_NUMBER && UsedExponent(n, 6) == -278
  {
    hide DecimalText, DecimalNat, MaximumUsefulDigits, Ten, AllDigits;
    DecimalTextStart(DIGITS_NUMBER);
    TenTwenty();
    DecimalTextLength(DIGITS_NUMBER, 20);
    TwentyOneDigits();
    EmptyDigits();
    assert n.whole + n.fraction == n.whole;
    LeadingZerosUnique(n.whole, 0);
    KeptLengthUnique(n.fraction, 0);
    AllUsed(n);
  }

  lemma EmptyDigits()
    ensures AllDigits("")
  {
  }

  lemma AllUsed(n: Numeral)
    requires AllDigits(n.whole) && AllDigits(n.fraction) && n.fraction == "" && LeadingZeros(n.whole) == 0
    requires |n.whole| <= MaximumUsefulDigits(6) && KeptLength(n.fraction) == 0
    ensures UsefulDigits(n) == n.whole && UsedMantissa(n, 6) == DecimalNat(n.whole) && Unused(n, 6) == 0
    ensures UsedExponent(n, 6) == n.exponent
  {
    hide MaximumUsefulDigits, DecimalNat, LeadingZeros, KeptLength;
    var s := UsefulDigits(n);
    assert s == n.whole[0..] + n.fraction[..0];
    assert s[..|s|] == s;
  }

  lemma ReadingHere(n: Numeral)
    requires IsTheNumeral(n)
    ensures AllDigits(n.whole) && AllDigits(n.fraction) && IsReadable(n, 6)
    ensures LastPower(n, 6) == Power(POWER, -63) && LittlenumsOf(UsedMantissa(n, 6)) == DIGITS
    ensures var r := Reading(n, 6).power; |r.littlenums| == 6 && Nat(r.littlenums) == READING_NUMBER && r.exponent == -59
  {
    hide DecimalText, DecimalNat, MaximumUsefulDigits, Mantissa, UsefulDigits, UsedMantissa, UsedExponent, Raise, ProductOf, Nat;
    hide LittlenumsOf, AllDigits, POWER, DIGITS;
    DigitsUsedHere(n);
    PowerIsComputed();
    DigitsAreLittlenums();
    ProductHere();
  }

  // ---------------------------------------------------------------- the encoding

  const SIGNIFICAND := 0x16b0a8e890ffff

  lemma ReadingBits()
    ensures BitLength(READING_NUMBER) == 85 && Rounded(READING_NUMBER, 53) == SIGNIFICAND
  {
    hide Pow, Pow2, BitLength;
    PlaceValues();
    Pow2Words();
    Pow2Add(16, 5);
    Pow2Add(16, 4);
    Pow2Add(10, 5);
    Pow2Add(16, 15);
    Pow2Add(32, 32);
    Pow2Add(64, 20);
    Pow2Add(64, 21);
    BitLengthUnique(READING_NUMBER, 85);
    assert Leading(READING_NUMBER, 54) == READING_NUMBER / Pow2(31);
  }

  /** A normal number, and on the right branch. */
  lemma EncodingHere(r: Power)
    requires Nat(r.littlenums) == READING_NUMBER && r.exponent == -59
    ensures TakesRightBranch(DOUBLE, r) && MagnitudeOf(DOUBLE, r) == (163 - 1) * Pow2(52) + SIGNIFICAND
  {
    hide Nat, BitLength, Rounded, Pow, Pow2, Infinity;
    ReadingBits();
    BiasIsPositive(DOUBLE);
    ExponentRoom(DOUBLE);
  }

  lemma FiftyTwo()
    ensures Pow2(52) == 0x10_0000_0000_0000
  {
    hide Pow, Pow2;
    PlaceValues();
    Pow2Words();
    Pow2Add(16, 4);
    Pow2Add(32, 20);
  }

  /** What the encoding stands for, and what the one 2^16 further on does. */
  lemma DecodedHere(m: nat)
    requires m == (163 - 1) * Pow2(52) + SIGNIFICAND
    ensures Decode(DOUBLE, m) == SIGNIFICAND * Pow2(162) && Decode(DOUBLE, m + 0x1_0000) == (SIGNIFICAND + 0x1_0000) * Pow2(162)
    ensures m + 0x1_0000 <= Infinity(DOUBLE)
  {
    hide Pow, Pow2, Decode;
    FiftyTwo();
    ExponentRoom(DOUBLE);
    DecodeAt(DOUBLE, 163, SIGNIFICAND);
    DecodeAt(DOUBLE, 163, SIGNIFICAND + 0x1_0000);
  }

  // ---------------------------------------------------------------- the value

  lemma TenOf278()
    ensures Ten(278) == 100000000000000000000000000000000000000000000000000000000000000000000000000000000000000000000000000000000000000000000000000000000000000000000000000000000000000000000000000000000000000000000000000000000000000000000000000000000000000000000000000000000000000000000000000000000000000
  {
    hide Ten;
    TenValues();
    TenAdd(64, 64);
    TenAdd(128, 128);
    TenAdd(256, 16);
    TenAdd(272, 4);
    TenAdd(276, 2);
  }

  lemma TwoOf912()
    ensures Pow2(912) == 0x1000000000000000000000000000000000000000000000000000000000000000000000000000000000000000000000000000000000000000000000000000000000000000000000000000000000000000000000000000000000000000000000000000000000000000000000000000000000000
  {
    hide Pow2, RPow;
    RadixPowers();
    RPowAdd(4, 4);
    RPowAdd(8, 8);
    RPowAdd(16, 16);
    RPowAdd(32, 16);
    RPowAdd(48, 8);
    RPowAdd(56, 1);
    RPowIsPow2(57);
  }

  lemma BoundsHere(t: nat, w: nat)
    requires t == Ten(278) && w == Pow2(912)
    ensures (SIGNIFICAND + 0x1_0000) * t <= DIGITS_NUMBER * w < 0x20_0000_0000_0000 * t
  {
    hide Ten, Pow2;
    TenOf278();
    TwoOf912();
  }

  lemma UnitsHere(n: Numeral)
    requires AllDigits(n.whole) && AllDigits(n.fraction) && IsTheNumeral(n) && Mantissa(n) == DIGITS_NUMBER
    ensures UnitsOf(DOUBLE, n) == (DIGITS_NUMBER as real * RealPow(10, -278)) * RealPow(2, 1074)
  {
    hide RealPow, Mantissa, AllDigits, Pow, Pow2, Bias, DecimalText;
    BiasIsPositive(DOUBLE);
  }

  lemma PowersHere(t: nat, u: nat, w: nat)
    requires t == Ten(278) && u == Pow2(162) && w == Pow2(912)
    ensures t > 0 && t as real * RealPow(10, -278) == 1.0 && RealPow(2, 1074) == u as real * w as real
  {
    hide Pow, RealPow;
    NaturalPow(10, 278);
    NaturalPow(2, 1074);
    Pow2Add(162, 912);
    RealProduct(u, w);
  }

  /** The numeral lies above the number 2^16 further on, and below 2^53 units. */
  lemma ValueHere(n: Numeral, u: nat, units: real)
    requires AllDigits(n.whole) && AllDigits(n.fraction) && IsTheNumeral(n) && Mantissa(n) == DIGITS_NUMBER
    requires u == Pow2(162) && units == UnitsOf(DOUBLE, n)
    ensures ((SIGNIFICAND + 0x1_0000) * u) as real <= units <= (0x20_0000_0000_0000 * u) as real
  {
    hide Pow, Pow2, Ten, RealPow, Mantissa, AllDigits, UnitsOf, IsTheNumeral;
    var t, w := Ten(278), Pow2(912);
    BoundsHere(t, w);
    UnitsHere(n);
    PowersHere(t, u, w);
    RealProduct(DIGITS_NUMBER, w);
    RealProduct(SIGNIFICAND + 0x1_0000, t);
    RealProduct(0x20_0000_0000_0000, t);
    RealProduct(SIGNIFICAND + 0x1_0000, u);
    RealProduct(0x20_0000_0000_0000, u);
    Ratio(DIGITS_NUMBER as real, t as real, RealPow(10, -278), u as real, w as real, units,
          (SIGNIFICAND + 0x1_0000) as real, 0x20_0000_0000_0000 as real);
  }

  lemma Ratio(a: real, t: real, i: real, u: real, w: real, units: real, low: real, high: real)
    requires t > 0.0 && t * i == 1.0 && u >= 0.0 && units == (a * i) * (u * w)
    requires low * t <= a * w <= high * t
    ensures low * u <= units <= high * u
  {
    assert i > 0.0;
    var iu := i * u;
    NotNegative(i, u);
    assert units == (a * w) * iu;
    RealMonotone(low * t, a * w, iu);
    RealMonotone(a * w, high * t, iu);
    Undone(low, t, i, u);
    Undone(high, t, i, u);
  }

  lemma Undone(x: real, t: real, i: real, u: real)
    requires t * i == 1.0
    ensures (x * t) * (i * u) == x * u
  {
    assert (x * t) * (i * u) == (x * u) * (t * i);
  }

  lemma SlackIsSmall(n: Numeral, u: nat, units: real)
    requires AllDigits(n.whole) && AllDigits(n.fraction) && IsTheNumeral(n) && IsReadable(n, 6)
    requires u > 0 && units == UnitsOf(DOUBLE, n)
    requires 0.0 <= units <= (0x20_0000_0000_0000 * u) as real
    ensures Slack(DOUBLE, n, 6) < u as real
  {
    hide AllDigits, ReadingError, UnitsOf, IsTheNumeral, UsedMantissa, UsedExponent;
    ErrorHere(n);
    RealProduct(0x20_0000_0000_0000, u);
    SlackBound(units, ReadingError(n, 6), u as real);
  }

  lemma SlackBound(units: real, e: real, u: real)
    requires u > 0.0 && 0.0 <= units <= 9007199254740992.0 * u && 0.0 <= e <= 29.0 * UNIT
    ensures 2.0 * (units * e) < u
  {
    RealProducts(units, 9007199254740992.0 * u, e, 29.0 * UNIT);
    assert (9007199254740992.0 * u) * (29.0 * UNIT) == u * (9007199254740992.0 * (29.0 * UNIT));
    assert 9007199254740992.0 * (29.0 * UNIT) < 0.25;
    RealMonotone(9007199254740992.0 * (29.0 * UNIT), 0.25, u);
  }

  lemma ErrorHere(n: Numeral)
    requires AllDigits(n.whole) && AllDigits(n.fraction) && IsTheNumeral(n) && IsReadable(n, 6)
    ensures 0.0 <= ReadingError(n, 6) <= 29.0 * UNIT
  {
    hide AllDigits, UsefulDigits, MaximumUsefulDigits, UsedMantissa, UsedExponent, LastPower, Cut, LittlenumsOf, POWER, DIGITS;
    hide IsTheNumeral;
    DigitsUsedHere(n);
    ReadingHere(n);
    CutHere();
  }

  lemma CutHere()
    ensures Cut(POWER, DIGITS, 6) <= UNIT
  {
    hide ProductOf, ExactProduct, RealPow, POWER, DIGITS;
    ProductHere();
    GrainIsEnough(6);
  }

  // ---------------------------------------------------------------- the failure

  /** A readable numeral on a right branch whose encoding another number beats by 2^16 units of the last place. */
  lemma LostExample(n: Numeral)
    requires IsTheNumeral(n)
    ensures AllDigits(n.whole) && AllDigits(n.fraction) && IsReadable(n, 6)
    ensures !IsSafe(LittlenumsOf(UsedMantissa(n, 6))) && LastLost(n, 6) > 0.0
    ensures TakesRightBranch(DOUBLE, Reading(n, 6).power)
    ensures !AlmostNearest(DOUBLE, UnitsOf(DOUBLE, n), MagnitudeOf(DOUBLE, Reading(n, 6).power), Slack(DOUBLE, n, 6))
  {
    hide AllDigits, UsedMantissa, UsedExponent, Reading, LittlenumsOf, LastPower, Mantissa, Pow, Pow2, Decode, Infinity, Slack;
    hide UnitsOf, MagnitudeOf, TakesRightBranch, UsefulDigits, MaximumUsefulDigits, AllLost, RealPow, RPow, Nat, POWER, DIGITS;
    hide IsTheNumeral;
    ReadingHere(n);
    DigitsUsedHere(n);
    LostHere();
    FactorLengths();
    if IsSafe(DIGITS) {
      SafeWithAny(POWER, DIGITS);
    }
    SomethingLost(AllLost(POWER, DIGITS), RealPow(RADIX, -63));
    var r := Reading(n, 6).power;
    EncodingHere(r);
    var m, u, units := MagnitudeOf(DOUBLE, r), Pow2(162), UnitsOf(DOUBLE, n);
    DecodedHere(m);
    ValueHere(n, u, units);
    SlackIsSmall(n, u, units);
    Beaten(units, SIGNIFICAND, u, Decode(DOUBLE, m), Decode(DOUBLE, m + 0x1_0000), Slack(DOUBLE, n, 6));
  }

  lemma SomethingLost(lost: nat, p: real)
    requires lost > 0 && p > 0.0
    ensures lost as real * p > 0.0
  {
  }

  lemma Beaten(units: real, q: nat, u: nat, d: nat, d': nat, slack: real)
    requires u > 0 && d == q * u && d' == (q + 0x1_0000) * u && d' as real <= units && slack < u as real
    ensures Gap(units, d) > Gap(units, d') + slack
  {
    assert (q + 0x1_0000) * u == q * u + 0x1_0000 * u;
  }
}
