/** How near the power of ten that atof_generic multiplies up comes to the power that is meant
    (cctools/as/atof-generic.c), for the rooms that atof_ieee gives it. */
module PowerAccuracy {
  import opened Arith
  import opened Bignum
  import opened BitReader
  import opened Decimal
  import opened Multiply
  import opened Nearness
  import opened NormalForm
  import opened PowerErrors
  import opened PowerLoop
  import opened PowerTables
  import opened PowersOfTen
  import opened ProductErrors

  // ---------------------------------------------------------------- no entry ever wraps

  /** Whatever it is multiplied with, an entry of the tables never makes a word wrap: its littlenums keep away from the
      radix by more than the carries can make up for. */
  lemma EntryNeverWraps(negative: bool, place: nat, b: seq<Littlenum>, n: nat)
    requires 1 <= place <= TABLE_SIZE
    ensures Wraps(Entry(negative, place).littlenums, b, n) == 0
  {
    hide Entry, Column;
    var a := Entry(negative, place).littlenums;
    CarryBound(a, b, n);
    SmallFirst(a, b, n);
  }

  lemma SmallFirst(a: seq<Littlenum>, b: seq<Littlenum>, n: nat)
    requires IsEntry(a)
    ensures FirstProduct(a, b, n) <= LARGEST * (RADIX - 1)
  {
    var i := if n < |b| then 0 else n - |b| + 1;
    if i < |a| && 0 <= n - i < |b| {
      MulMonotone(a[i], LARGEST, b[n - i]);
      MulMonotone(b[n - i], RADIX - 1, LARGEST);
    }
  }

  lemma NothingLost(negative: bool, place: nat, b: seq<Littlenum>)
    requires 1 <= place <= TABLE_SIZE
    ensures AllLost(Entry(negative, place).littlenums, b) == 0
  {
    hide Entry, Wraps, Lost;
    var a := Entry(negative, place).littlenums;
    forall k: nat ensures Wraps(a, b, k) == 0 {
      EntryNeverWraps(negative, place, b, k);
    }
    LostIffWraps(a, b, |a| + |b| - 1);
  }

  // ---------------------------------------------------------------- every product fills its buffer

  /** The rooms that atof_ieee gives to the formats F and D, two guard littlenums included. */
  predicate IsRoom(capacity: nat) {
    capacity == 4 || capacity == 6
  }

  /** The unit of the errors: 2^-48 for a single, and for a double 2^-64, which the table itself is not better than. */
  function Grain(capacity: nat): real {
    if capacity == 4 then 1.0 / 281474976710656.0 else UNIT
  }

  lemma GrainIsEnough(capacity: nat)
    requires IsRoom(capacity)
    ensures RealPow(RADIX, 1 - capacity) <= Grain(capacity) && UNIT <= Grain(capacity)
  {
    hide RealPow, RPow;
    RPowStep(0);
    RPowZero();
    RPowAdd(1, 1);
    RPowAdd(2, 1);
    RPowAdd(3, 2);
    hide Pow;
    NaturalPow(RADIX, capacity - 1);
    assert RPow(capacity - 1) == if capacity == 4 then 0x1_0000_0000_0000 else 0x1_0000_0000_0000_0000_0000;
  }

  /** What holds before the loop comes to the entry at a place: the early powers are exact. */
  predicate Ready(negative: bool, place: nat, power: Power, n: nat, capacity: nat)
    requires place > 0
  {
    && IsNormalIn(power.littlenums, capacity)
    && (!negative && (place <= 5 || (place == 6 && capacity == 6)) ==> IsTen(power, n, place))
  }

  predicate IsTen(power: Power, n: nat, place: nat)
    requires place > 0
  {
    n < Pow2(place - 1) && power.exponent >= 0 && Value(power) == Ten(n)
  }

  /** An exact power of ten below 10^16 has no low zeros, and one below 10^32 at most one. */
  lemma FewZeros(power: Power, n: nat)
    requires Normal(power.littlenums) && power.exponent >= 0 && Value(power) == Ten(n) && n < 32
    ensures LowZeros(power.littlenums) <= 1
    ensures LowZeros(power.littlenums) == 1 ==> n >= 16 && power.exponent == 0
  {
    hide LowZeros, Nat, RPow, Ten;
    var s := power.littlenums;
    var k := LowZeros(s);
    LoneZeros(s);
    AboveZeros(s);
    RPowAdd(k, power.exponent);
    Regroup(Nat(s[k..]), RPow(k), RPow(power.exponent));
    RPowIsPow2(k + power.exponent);
    if 16 * (k + power.exponent) > n {
      TooManyTwos(Nat(s[k..]), 16 * (k + power.exponent), n);
    }
  }

  lemma PositiveLength(place: nat)
    requires 1 <= place <= TABLE_SIZE
    ensures var k := |Positive(place).littlenums|;
      if place <= 6 then k == match place case 4 => 2 case 5 => 3 case 6 => 5 case _ => 1 else k >= 7
  {
    hide Plus6, Plus7, Plus8, Plus9, Plus10, Plus11, IsEntry, Nat;
  }

  lemma NegativeLength(place: nat)
    requires 1 <= place <= TABLE_SIZE
    ensures |Negative(place).littlenums| >= 7
  {
    hide Minus1, Minus2, Minus3, Minus4, Minus5, Minus6, Minus7, Minus8, Minus9, Minus10, Minus11, IsEntry, Nat;
  }

  lemma EntryLengths(negative: bool, place: nat)
    requires 1 <= place <= TABLE_SIZE
    ensures var k := |Entry(negative, place).littlenums|;
      && ((negative || place >= 7) ==> k >= 7)
      && (!negative && place <= 6 ==> k == match place case 4 => 2 case 5 => 3 case 6 => 5 case _ => 1)
  {
    hide Positive, Negative, IsEntry, Nat;
    if negative {
      NegativeLength(place);
    } else {
      PositiveLength(place);
    }
  }

  /** How long an exact power of ten can be. */
  lemma TenLengths(power: Power, n: nat)
    requires Normal(power.littlenums) && power.exponent >= 0 && Value(power) == Ten(n)
    ensures n < 8 ==> |power.littlenums| <= 2
    ensures n < 16 ==> |power.littlenums| <= 4
    ensures n >= 16 && power.exponent == 0 ==> |power.littlenums| >= 4
  {
    hide Ten, Pow, RPow, Nat;
    RadixPowers();
    TenFifteen();
    TenValues();
    if n < 8 {
      SmallTens(n);
      NormalLength(power, 2);
    } else if n < 16 {
      TenMonotone(n, 15);
      NormalLength(power, 4);
    } else {
      TenMonotone(16, n);
      NatBound(power.littlenums);
      RPowZero();
      RPowAdd(2, 1);
      if |power.littlenums| < 4 {
        RPowAdd(|power.littlenums|, 3 - |power.littlenums|);
        MulAtLeast(RPow(3 - |power.littlenums|), RPow(|power.littlenums|));
      }
    }
  }

  /** Every product of the loop fills its buffer, unless it is exact. */
  lemma StepFills(negative: bool, place: nat, power: Power, n: nat, capacity: nat)
    requires 1 <= place <= TABLE_SIZE && IsRoom(capacity) && Ready(negative, place, power, n, capacity)
    ensures Fills(Entry(negative, place).littlenums, power.littlenums, capacity)
  {
    hide Entry, Ten, Pow, Pow2, LowZeros, Value;
    EntryLengths(negative, place);
    PlaceValues();
    var a, b := Entry(negative, place).littlenums, power.littlenums;
    EntryStarts(a);
    LoneZeros(b);
    if !negative && 4 <= place && place <= (if capacity == 4 then 5 else 6) {
      TenLengths(power, n);
      FewZeros(power, n);
    }
  }

  lemma EntryStarts(s: seq<Littlenum>)
    requires IsEntry(s)
    ensures LowZeros(s) == 0
  {
  }

  lemma TimesReady(negative: bool, place: nat, power: Power, n: nat, capacity: nat)
    requires 1 <= place <= TABLE_SIZE && IsRoom(capacity) && Ready(negative, place, power, n, capacity)
    ensures Ready(negative, place + 1, Times(Entry(negative, place), power, capacity), n + Pow2(place - 1), capacity)
  {
    hide Times, IsTen, Entry, IsEntry, IsNormalIn, Pow, Pow2;
    TimesNormal(negative, place, power, capacity);
    SameEntry(place);
    if !negative && place <= 4 {
      NormalHere(power, capacity);
      EarlyTimes(place, power, n, capacity);
    } else if !negative && place == 5 && capacity == 6 {
      NormalHere(power, capacity);
      FifthTimes(place, power, n, capacity);
    }
  }

  lemma NormalHere(power: Power, capacity: nat)
    requires IsNormalIn(power.littlenums, capacity)
    ensures Normal(power.littlenums)
  {
  }

  lemma EarlyTimes(place: nat, power: Power, n: nat, capacity: nat)
    requires 1 <= place <= 4 && capacity >= 4 && Normal(power.littlenums) && IsTen(power, n, place)
    ensures IsTen(Times(Positive(place), power, capacity), n + Pow2(place - 1), place + 1)
  {
    hide Times, Positive, Pow, Pow2, Ten, Value;
    ShortStep(place, power, n, capacity);
    Pow2Twice(place - 1);
  }

  /** Six littlenums hold every power below 10^32. */
  lemma FifthTimes(place: nat, power: Power, n: nat, capacity: nat)
    requires place == 5 && capacity == 6 && Normal(power.littlenums) && IsTen(power, n, place)
    ensures IsTen(Times(Positive(place), power, capacity), n + Pow2(place - 1), place + 1)
  {
    hide Times, Pow, Pow2, Ten, Value, Positive, ExactProduct, Entry;
    PlaceValues();
    TenLengths(power, n);
    EntryLengths(false, 5);
    EntryIsExactIff(5);
    var a, b := Positive(5).littlenums, power.littlenums;
    assert a == Entry(false, 5).littlenums by { SameEntry(5); }
    NothingLost(false, 5, b);
    FifthProduct(power, n);
    TimesValue(Positive(5), power, 6);
    TenAdd(n, 16);
  }

  lemma SameEntry(place: nat)
    requires 1 <= place <= TABLE_SIZE
    ensures Entry(false, place) == Positive(place)
  {
  }

  lemma FifthProduct(power: Power, n: nat)
    requires Normal(power.littlenums) && power.exponent >= 0 && Value(power) == Ten(n) && n < 16
    requires |power.littlenums| <= 4 && |Positive(5).littlenums| == 3
    requires AllLost(Positive(5).littlenums, power.littlenums) == 0
    ensures ExactProduct(Positive(5).littlenums, power.littlenums, 6)
  {
    hide Ten, RPow, Positive, ExactProduct, AllLost, Nat, Value;
    var a, b := Positive(5).littlenums, power.littlenums;
    if |b| <= 3 {
      ExactWhenNothingIsLost(a, b, 6);
    } else {
      FifthBound(power, n);
      ExactWhenItFits(a, b, 6);
    }
  }

  lemma FifthBound(power: Power, n: nat)
    requires power.exponent >= 0 && Value(power) == Ten(n) && n < 16
    ensures Nat(Positive(5).littlenums) * Nat(power.littlenums) < RPow(6)
  {
    hide Ten, RPow, Positive, Nat, Pow;
    SmallNumbers(5);
    TenFifteen();
    TenMonotone(n, 15);
    MulAtLeast(RPow(power.exponent), Nat(power.littlenums));
    MulMonotone(Nat(power.littlenums), Ten(15), SmallNumber(5));
    RadixPowers();
    RPowAdd(4, 2);
  }

  // ---------------------------------------------------------------- the errors of the steps

  /** The error allowed before the entry at a place: two and a half units for every step. */
  function Allowed(place: nat, capacity: nat): real {
    2.5 * (place - 1) as real * Grain(capacity)
  }

  lemma WorthIsPositive(p: Power)
    ensures Worth(p) >= 0.0
  {
    hide RealPow, Nat;
    NotNegative(Nat(p.littlenums) as real, RealPow(RADIX, p.exponent));
  }

  lemma TimesIs(entry: Power, power: Power, capacity: nat)
    requires capacity > 0 && Times(entry, power, capacity).littlenums != []
    ensures var p := ProductOf(entry.littlenums, power.littlenums, capacity);
      p.littlenums != [] && Times(entry, power, capacity) == Power(p.littlenums, entry.exponent + power.exponent + p.shift)
  {
  }

  /** A product of the loop is worth the product of its factors, but for what is cut off. */
  lemma TimesWorth(negative: bool, place: nat, power: Power, n: nat, capacity: nat)
    requires 1 <= place <= TABLE_SIZE && IsRoom(capacity) && Ready(negative, place, power, n, capacity)
    ensures var w := Worth(Entry(negative, place)) * Worth(power);
      w * (1.0 - Grain(capacity)) <= Worth(Times(Entry(negative, place), power, capacity)) <= w
  {
    hide Entry, IsTen, Times, ProductOf, Cut, Worth, Fills, Grain;
    var entry := Entry(negative, place);
    TimesNormal(negative, place, power, capacity);
    NothingLost(negative, place, power.littlenums);
    StepFills(negative, place, power, n, capacity);
    FullCut(entry.littlenums, power.littlenums, capacity);
    GrainIsEnough(capacity);
    TimesIs(entry, power, capacity);
    ProductWorth(entry, power, capacity);
    var w := Worth(entry) * Worth(power);
    WorthIsPositive(entry);
    WorthIsPositive(power);
    NotNegative(Worth(entry), Worth(power));
    RealMonotone(1.0 - Grain(capacity), 1.0 - Cut(entry.littlenums, power.littlenums, capacity), w);
  }

  lemma SmallAllowance(place: nat, capacity: nat)
    requires 1 <= place <= TABLE_SIZE && IsRoom(capacity)
    ensures 0.0 <= Grain(capacity) <= 0.001 && 0.0 <= Allowed(place, capacity) <= 0.1
    ensures Allowed(place + 1, capacity) == Allowed(place, capacity) + 2.5 * Grain(capacity)
  {
  }

  /** Errors of one step: that of the entry, that of the power so far, and what is cut off. */
  lemma StepErrors(v: real, entry: real, x: real, u: real, power: real, y: real, s: real, g: real)
    requires x >= 0.0 && y >= 0.0 && Near(entry, x, u) && Near(power, y, s)
    requires 0.0 <= u <= g && g <= 0.001 && 0.0 <= s <= 0.1
    requires (entry * power) * (1.0 - g) <= v <= entry * power
    ensures Near(v, x * y, s + 2.5 * g)
  {
    hide Near;
    Wider(entry, x, u, g);
    NearProduct(entry, x, g, power, y, s);
    NotNegative(x, y);
    SmallSum(g, s);
    CutErrors(v, entry * power, x * y, g + s + g * s, g, s + 2.5 * g);
  }

  lemma CutErrors(v: real, p: real, exact: real, r: real, g: real, t: real)
    requires exact >= 0.0 && 0.0 <= r <= 1.0 && 0.0 <= g <= 1.0 && r + g <= t && Near(p, exact, r)
    requires p * (1.0 - g) <= v <= p
    ensures Near(v, exact, t)
  {
    hide Near;
    NearCut(v, p, g, exact, r);
    Wider(v, exact, r + g, t);
  }

  lemma SmallSum(g: real, s: real)
    requires 0.0 <= g <= 0.001 && 0.0 <= s <= 0.1
    ensures 0.0 <= g + s + g * s <= 1.0 && g + s + g * s + g <= s + 2.5 * g
  {
    NotNegative(g, s);
    NotNegative(g, 0.1 - s);
  }

  predicate IsNearTen(power: Power, negative: bool, n: nat, place: nat, capacity: nat) {
    Near(Worth(power), RealPow(10, Exponent(negative, n)), Allowed(place, capacity))
  }

  lemma TimesNearTen(negative: bool, place: nat, power: Power, n: nat, capacity: nat)
    requires 1 <= place <= TABLE_SIZE && IsRoom(capacity) && Ready(negative, place, power, n, capacity)
    requires IsNearTen(power, negative, n, place, capacity)
    ensures IsNearTen(Times(Entry(negative, place), power, capacity), negative, n + Pow2(place - 1), place + 1, capacity)
  {
    hide Entry, Ready, Times, Worth, RealPow, Allowed, Grain, Near, Pow2, ErrorBound, Exponent;
    var entry, next := Entry(negative, place), Times(Entry(negative, place), power, capacity);
    var x, y := RealPow(10, Exponent(negative, Pow2(place - 1))), RealPow(10, Exponent(negative, n));
    EntryIsNear(negative, place);
    GrainIsEnough(capacity);
    SmallAllowance(place, capacity);
    TimesWorth(negative, place, power, n, capacity);
    StepErrors(Worth(next), Worth(entry), x, ErrorBound(negative, place), Worth(power), y, Allowed(place, capacity),
               Grain(capacity));
    ExponentsAdd(negative, n, Pow2(place - 1));
    NearSame(Worth(next), x * y, Allowed(place, capacity) + 2.5 * Grain(capacity),
             Worth(next), RealPow(10, Exponent(negative, n + Pow2(place - 1))), Allowed(place + 1, capacity));
  }

  lemma ExponentsAdd(negative: bool, m: nat, n: nat)
    ensures RealPow(10, Exponent(negative, m + n)) == RealPow(10, Exponent(negative, n)) * RealPow(10, Exponent(negative, m))
  {
    hide RealPow;
    RealPowAdd(10, Exponent(negative, n), Exponent(negative, m));
  }

  /** Without an entry at a place the error allowed for it is not used. */
  lemma SkipNearTen(negative: bool, place: nat, power: Power, n: nat, capacity: nat)
    requires 1 <= place <= TABLE_SIZE && IsRoom(capacity) && Ready(negative, place, power, n, capacity)
    requires IsNearTen(power, negative, n, place, capacity)
    ensures IsNearTen(power, negative, n, place + 1, capacity) && Ready(negative, place + 1, power, n, capacity)
  {
    hide Worth, RealPow, Allowed, Grain, Near, Pow2, Exponent, Value, Ten, IsNormalIn;
    SmallAllowance(place, capacity);
    Wider(Worth(power), RealPow(10, Exponent(negative, n)), Allowed(place, capacity), Allowed(place + 1, capacity));
    Pow2Twice(place - 1);
  }

  lemma {:induction false} RaiseIsNear(e: nat, place: nat, negative: bool, power: Power, n: nat, capacity: nat)
    requires 1 <= place <= TABLE_SIZE + 1 && e < Pow2(TABLE_SIZE + 1 - place) && IsRoom(capacity)
    requires Ready(negative, place, power, n, capacity) && IsNearTen(power, negative, n, place, capacity)
    ensures var r := Raise(e, place, negative, power, capacity);
      !r.overflow && IsNearTen(r.power, negative, n + Scaled(e, place), TABLE_SIZE + 1, capacity)
    decreases TABLE_SIZE + 1 - place
  {
    hide Entry, Ready, Times, IsNearTen, Scaled, Pow2;
    HalfScaled(e, place);
    if place == TABLE_SIZE + 1 {
      Pow2Zero();
      NothingRaised(place, ONE);
    } else {
      Pow2Twice(TABLE_SIZE - place);
      if e % 2 == 1 {
        TimesReady(negative, place, power, n, capacity);
        TimesNearTen(negative, place, power, n, capacity);
        RaiseIsNear(e / 2, place + 1, negative, Times(Entry(negative, place), power, capacity), n + Pow2(place - 1), capacity);
      } else {
        SkipNearTen(negative, place, power, n, capacity);
        RaiseIsNear(e / 2, place + 1, negative, power, n, capacity);
        SameRaise(e, place, negative, power, capacity);
      }
    }
  }

  lemma SameRaise(e: nat, place: nat, negative: bool, power: Power, capacity: nat)
    requires place > 0 && capacity > 0 && e % 2 == 0
    ensures Raise(e, place, negative, power, capacity) == Raise(e / 2, place + 1, negative, power, capacity)
  {
    hide Entry, Times;
  }

  lemma PowerOne(negative: bool, capacity: nat)
    requires IsRoom(capacity)
    ensures Ready(negative, 1, ONE, 0, capacity) && IsNearTen(ONE, negative, 0, 1, capacity)
  {
    hide RealPow, Grain;
    Pow2Zero();
    TenZero();
    RealPowZero(RADIX);
    RealPowZero(10);
    assert Value(ONE) == 1 && Nat([1]) == 1;
  }

  lemma LastAllowance(capacity: nat)
    ensures Allowed(TABLE_SIZE + 1, capacity) == 27.5 * Grain(capacity)
  {
  }

  /** The power of ten that the loop computes is the one that is meant, but for a relative error of 27.5 units: of less
      than 2^-43 in the room for a single and less than 2^-59 in that for a double. */
  lemma PowerIsNear(e: nat, negative: bool, capacity: nat)
    requires IsRoom(capacity) && e < 2048
    ensures var r := Raise(e, 1, negative, ONE, capacity);
      !r.overflow && Near(Worth(r.power), RealPow(10, Exponent(negative, e)), 27.5 * Grain(capacity))
  {
    hide Raise, RealPow, Grain, Near, Ten, Value;
    PowerOne(negative, capacity);
    assert Pow2(11) == 2048 && Pow2(0) == 1;
    hide Pow2;
    RaiseIsNear(e, 1, negative, ONE, 0, capacity);
    assert Scaled(e, 1) == e;
    LastAllowance(capacity);
  }
}
