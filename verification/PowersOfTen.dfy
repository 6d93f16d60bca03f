/** The tables of powers of ten (cctools/as/flonum-const.c), and how atof_generic multiplies them up. */
module PowersOfTen {
  import opened Arith
  import opened Bignum
  import opened BitReader
  import opened Decimal
  import opened Multiply
  import opened PowerTables

  /** Littlenums, the lowest of which has the place value RADIX^exponent. */
  datatype Power = Power(littlenums: seq<Littlenum>, exponent: int)

  const TABLE_SIZE := 11     // table_size_of_flonum_powers_of_ten

  /** flonum_positive_powers_of_ten: 10^(2^(place - 1)). */
  function Positive(place: nat): (p: Power)
    requires 1 <= place <= TABLE_SIZE
    ensures IsEntry(p.littlenums) && |p.littlenums| <= 30
  {
    hide Plus6, Plus7, Plus8, Plus9, Plus10, Plus11;
    match place
    case 1 => Power([10], 0)
    case 2 => Power([100], 0)
    case 3 => Power([10000], 0)
    case 4 => Power([57600, 1525], 0)
    case 5 => Power([28609, 34546, 35], 1)
    case 6 => Power(Plus6(), 2)
    case 7 => Power(Plus7(), 4)
    case 8 => Power(Plus8(), 8)
    case 9 => Power(Plus9(), 24)
    case 10 => Power(Plus10(), 77)
    case _ => Power(Plus11(), 183)
  }

  /** flonum_negative_powers_of_ten: 10^-(2^(place - 1)), cut off. */
  function Negative(place: nat): (p: Power)
    requires 1 <= place <= TABLE_SIZE
    ensures IsEntry(p.littlenums) && |p.littlenums| <= 30
  {
    hide Minus1, Minus2, Minus3, Minus4, Minus5, Minus6, Minus7, Minus8, Minus9, Minus10, Minus11;
    match place
    case 1 => Power(Minus1(), -20)
    case 2 => Power(Minus2(), -20)
    case 3 => Power(Minus3(), -20)
    case 4 => Power(Minus4(), -20)
    case 5 => Power(Minus5(), -20)
    case 6 => Power(Minus6(), -20)
    case 7 => Power(Minus7(), -20)
    case 8 => Power(Minus8(), -40)
    case 9 => Power(Minus9(), -80)
    case 10 => Power(Minus10(), -136)
    case _ => Power(Minus11(), -242)
  }

  function Entry(negative: bool, place: nat): (p: Power)
    requires 1 <= place <= TABLE_SIZE
    ensures IsEntry(p.littlenums) && |p.littlenums| <= 30
  {
    if negative then Negative(place) else Positive(place)
  }

  /** The whole number that a power with no places below the units denotes. */
  function Value(p: Power): nat
    requires p.exponent >= 0
  {
    Nat(p.littlenums) * RPow(p.exponent)
  }

  // ---------------------------------------------------------------- which entries are exact

  lemma RadixModFive(x: nat)
    ensures (RADIX * x) % 5 == x % 5
  {
    assert RADIX * x == (13107 * x) * 5 + x;
    DivModUnique(RADIX * x, 5, 13107 * x + x / 5, x % 5);
  }

  lemma {:induction false} ShiftModFive(x: nat, n: nat)
    ensures (x * RPow(n)) % 5 == x % 5
  {
    if n > 0 {
      ShiftModFive(x, n - 1);
      RPowStep(n - 1);
      hide RPow;
      RadixModFive(x * RPow(n - 1));
      Regroup(x, RADIX, RPow(n - 1));
    }
  }

  /** The entry for 10^128 is not a multiple of five, so it is no power of ten at all. */
  lemma EighthEntry(n: nat)
    requires n > 0
    ensures Positive(8).exponent == 8 && Value(Positive(8)) != Ten(n)
  {
    TenModFive(n);
    assert PLUS_8 % 5 == 1;
    hide Plus8, Ten, RPow, Nat;
    ShiftModFive(PLUS_8, 8);
  }

  lemma TenModFive(n: nat)
    requires n > 0
    ensures Ten(n) % 5 == 0
  {
    assert Ten(n) == 10 * Ten(n - 1);
    hide Ten;
    DivModUnique(10 * Ten(n - 1), 5, 2 * Ten(n - 1), 0);
  }

  lemma {:induction false} TenFactors(n: nat)
    ensures Pow(5, n) % 2 == 1 && Ten(n) == Pow(5, n) * Pow2(n)
  {
    if n > 0 {
      TenFactors(n - 1);
      Interleave(Pow(5, n - 1), Pow2(n - 1));
    }
  }

  lemma Interleave(a: nat, b: nat)
    ensures (5 * a) * (2 * b) == 10 * (a * b)
    ensures a % 2 == 1 ==> (5 * a) % 2 == 1
  {
  }

  /** No power of ten has so high a power of two as a factor. */
  lemma TooManyTwos(x: nat, m: nat, n: nat)
    requires m > n
    ensures x * Pow2(m) != Ten(n)
  {
    TenFactors(n);
    Pow2Add(m - n, n);
    Pow2Add(1, m - n - 1);
    Pow2One();
    hide Ten, Pow, Pow2;
    Regroup(x, Pow2(m - n), Pow2(n));
    Regroup(x, 2, Pow2(m - n - 1));
    if x * Pow2(m) == Ten(n) {
      Cancel(x * Pow2(m - n), Pow(5, n), Pow2(n));
    }
  }

  lemma Cancel(a: nat, b: nat, p: nat)
    requires p > 0 && a * p == b * p
    ensures a == b
  {
    ModOfMultiple(a, p);
    ModOfMultiple(b, p);
  }

  lemma PlaceValues()
    ensures Pow2(0) == 1 && Pow2(1) == 2 && Pow2(2) == 4 && Pow2(3) == 8 && Pow2(4) == 16
    ensures Pow2(5) == 32 && Pow2(6) == 64 && Pow2(7) == 128
    ensures Pow2(8) == 256 && Pow2(9) == 512 && Pow2(10) == 1024
  {
  }

  lemma PositiveExponent(place: nat)
    requires 5 <= place <= TABLE_SIZE
    ensures Positive(place).exponent == match place
      case 5 => 1 case 6 => 2 case 7 => 4 case 8 => 8 case 9 => 24 case 10 => 77 case _ => 183
  {
    hide Plus6, Plus7, Plus8, Plus9, Plus10, Plus11;
  }

  lemma HighPlace(p: Power, n: nat)
    requires p.exponent >= 0 && 16 * p.exponent > n
    ensures Value(p) != Ten(n)
  {
    hide Pow2, Ten, RPow, Nat;
    RPowIsPow2(p.exponent);
    TooManyTwos(Nat(p.littlenums), 16 * p.exponent, n);
  }

  lemma LargeEntry(place: nat)
    requires 9 <= place <= TABLE_SIZE
    ensures Positive(place).exponent >= 0 && Value(Positive(place)) != Ten(Pow2(place - 1))
  {
    hide Pow, Pow2, Ten, Positive, Value;
    PlaceValues();
    PositiveExponent(place);
    HighPlace(Positive(place), Pow2(place - 1));
  }

  /** The table is right up to 10^64 and no further. */
  lemma EntryIsExactIff(place: nat)
    requires 1 <= place <= TABLE_SIZE
    ensures Positive(place).exponent >= 0
    ensures Value(Positive(place)) == Ten(Pow2(place - 1)) <==> place <= 7
  {
    hide Pow2, Ten, Positive;
    if place <= 7 {
      SmallEntry(place);
    } else if place == 8 {
      EighthEntry(Pow2(7));
    } else {
      LargeEntry(place);
    }
  }

  lemma TenValues()
    ensures Ten(1) == 10 && Ten(2) == 100 && Ten(4) == 10000 && Ten(8) == 100000000
    ensures Ten(16) == 10000000000000000
    ensures Ten(32) == 100000000000000000000000000000000
    ensures Ten(64) == 10000000000000000000000000000000000000000000000000000000000000000
  {
    PowAdd(10, 1, 1);
    PowAdd(10, 2, 2);
    PowAdd(10, 4, 4);
    PowAdd(10, 8, 8);
    PowAdd(10, 16, 16);
    PowAdd(10, 32, 32);
    assert Pow(10, 1) == 10;
    hide Pow;
  }

  lemma RadixPowers()
    ensures RPow(0) == 1 && RPow(1) == 0x1_0000 && RPow(2) == 0x1_0000_0000
    ensures RPow(4) == 0x1_0000_0000_0000_0000
  {
    RPowAdd(2, 2);
  }

  lemma SmallEntry(place: nat)
    requires 1 <= place <= 7
    ensures Positive(place).exponent >= 0 && Value(Positive(place)) == Ten(Pow2(place - 1))
  {
    hide Pow, Pow2, Ten, RPow, Nat, Positive;
    if place <= 4 {
      TinyExponent(place);
    } else {
      PositiveExponent(place);
    }
    SmallNumbers(place);
    RadixPowers();
    PlaceValues();
    SmallProducts(place, Nat(Positive(place).littlenums), RPow(Positive(place).exponent));
  }

  lemma TinyExponent(place: nat)
    requires 1 <= place <= 4
    ensures Positive(place).exponent == 0
  {
    hide Plus6, Plus7, Plus8, Plus9, Plus10, Plus11;
  }

  lemma SmallProducts(place: nat, n: nat, r: nat)
    requires 1 <= place <= 7 && n == SmallNumber(place)
    requires r == if place <= 4 then 1 else if place == 5 then RADIX else if place == 6 then WORD else WORD * WORD
    ensures n * r == Ten(match place case 1 => 1 case 2 => 2 case 3 => 4 case 4 => 8 case 5 => 16 case 6 => 32 case _ => 64)
  {
    hide Ten;
    TenValues();
  }

  function SmallNumber(place: nat): nat {
    match place
    case 1 => 10
    case 2 => 100
    case 3 => 10000
    case 4 => 100000000
    case 5 => 152587890625
    case 6 => 23283064365386962890625
    case _ => 542101086242752217003726400434970855712890625
  }

  lemma SmallNumbers(place: nat)
    requires 1 <= place <= 7
    ensures Nat(Positive(place).littlenums) == SmallNumber(place)
  {
    hide Plus6, Plus7, Nat;
    match place
    case 1 => TwoLittlenums(10, 0);
    case 2 => TwoLittlenums(100, 0);
    case 3 => TwoLittlenums(10000, 0);
    case 4 => TwoLittlenums(57600, 1525);
    case 5 => FifthNumber();
    case _ =>
  }

  lemma TwoLittlenums(a: Littlenum, b: Littlenum)
    ensures Nat([a]) == a && Nat([a, b]) == a + RADIX * b
  {
    assert [a, b][1..] == [b];
    assert Nat([b]) == b;
  }

  lemma FifthNumber()
    ensures Nat([28609, 34546, 35]) == 152587890625
  {
  }
}
