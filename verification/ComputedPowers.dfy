/** The powers of ten that the loop of atof_generic computes in six littlenums for small exponents, to their last bit
    (cctools/as/atof-generic.c). */
module ComputedPowers {
  import opened Arith
  import opened Bignum
  import opened Decimal
  import opened Multiply
  import opened NormalForm
  import opened PowerAccuracy
  import opened PowerLoop
  import opened PowerTables
  import opened PowersOfTen
  import opened ProductErrors

  // ---------------------------------------------------------------- one product, computed

  /** By how many places the product of numbers with so many littlenums is shifted down. */
  function ShiftOf(product: nat, columns: nat, capacity: nat): nat
    requires columns >= capacity
  {
    columns - capacity + if product >= RPow(columns) then 1 else 0
  }

  /** Without low zeros a product that is too long for the buffer is cut off to fill it. */
  lemma CutProduct(a: seq<Littlenum>, b: seq<Littlenum>, capacity: nat)
    requires Normal(a) && Normal(b) && a[0] != 0 && b[0] != 0 && AllLost(a, b) == 0
    requires 0 < capacity < |a| + |b| - 1
    ensures var p, s := ProductOf(a, b, capacity), ShiftOf(Nat(a) * Nat(b), |a| + |b| - 1, capacity);
      p.shift == s && |p.littlenums| == capacity && Nat(p.littlenums) == Nat(a) * Nat(b) / RPow(s)
  {
    hide Digits, CarryInto, Nat, RPow, AllLost, LowZeros;
    var n := |a| + |b| - 1;
    NoLowZeros(a);
    NoLowZeros(b);
    FewLowZeros(a, b, n);
    ComputedProduct(a, b, n);
    ProductValue(a, b, capacity);
    TopCarry(Digits(a, b, n), CarryInto(a, b, n));
  }

  lemma NoLowZeros(s: seq<Littlenum>)
    requires s != [] && s[0] != 0
    ensures LowZeros(s) == 0
  {
  }

  lemma TopCarry(digits: seq<Littlenum>, carry: Littlenum)
    ensures carry == 0 <==> Nat(digits + [carry]) < RPow(|digits|)
  {
    hide Nat, RPow;
    NatSnoc(digits, carry);
    NatBound(digits);
    if carry > 0 {
      MulAtLeast(carry, RPow(|digits|));
    }
  }

  // ---------------------------------------------------------------- negative powers up to 10^-31

  /** A number of six littlenums, and its place. */
  datatype Power96 = Power96(number: nat, place: int)

  /** 10^-e as the loop computes it. */
  function MinusTen(e: nat): Power96
    requires e < 32
  {
    match e
    case 0 => Power96(0x1, 0)
    case 1 => Power96(0x199999999999999999999999, -6)
    case 2 => Power96(0x28f5c28f5c28f5c28f5c28f, -6)
    case 3 => Power96(0x4189374bc6a7ef9db22d0e, -6)
    case 4 => Power96(0x68db8bac710cb295e9e1b, -6)
    case 5 => Power96(0xa7c5ac471b4784230fcf80d8, -7)
    case 6 => Power96(0x10c6f7a0b5ed8d36b4c7f346, -7)
    case 7 => Power96(0x1ad7f29abcaf485787a651e, -7)
    case 8 => Power96(0x2af31dc4611873bf3f7083, -7)
    case 9 => Power96(0x44b82fa09b5a52cb98b40, -7)
    case 10 => Power96(0x6df37f675ef6eadf5ab9a1f7, -8)
    case 11 => Power96(0xafebff0bcb24aafef78f68b, -8)
    case 12 => Power96(0x119799812dea11197f27f0d, -8)
    case 13 => Power96(0x1c25c268497681c2650cb4, -8)
    case 14 => Power96(0x2d09370d42573603d4e12, -8)
    case 15 => Power96(0x480ebe7b9d58566c87ce9b03, -9)
    case 16 => Power96(0x734aca5f6226f0ada6175f3, -9)
    case 17 => Power96(0xb877aa3236a4b44909befe, -9)
    case 18 => Power96(0x12725dd1d243aba0e75fe6, -9)
    case 19 => Power96(0x1d83c94fb6d2ac34a5663, -9)
    case 20 => Power96(0x2f394219248446baa23d2e89, -10)
    case 21 => Power96(0x4b8ed0283a6d3df769fb7e0, -10)
    case 22 => Power96(0x78e480405d7b9658a99263, -10)
    case 23 => Power96(0xc16d9a0095928a2775b70, -10)
    case 24 => Power96(0x1357c299a88ea76a58924, -10)
    case 25 => Power96(0x1ef2d0f5da7dd8aa27507958, -11)
    case 26 => Power96(0x318481895d962776a54d92b, -11)
    case 27 => Power96(0x4f3a68dbc8f03f243baf50, -11)
    case 28 => Power96(0x7ec3daf941806506c5e54, -11)
    case 29 => Power96(0xcad2f7f5359a3b3e096edefd, -12)
    case 30 => Power96(0x14484bfeebc29f863424afe6, -12)
    case _ => Power96(0x2073accb12d0ff3d203ab3a, -12)
  }

  predicate IsMinusTen(power: Power, e: nat)
    requires e < 32
  {
    && Normal(power.littlenums) && power.littlenums[0] != 0 && |power.littlenums| == (if e == 0 then 1 else 6)
    && Nat(power.littlenums) == MinusTen(e).number && power.exponent == MinusTen(e).place
  }

  /** The next power is the product with an entry, cut off to six littlenums. */
  predicate Follows(next: Power96, entry: Power, power: Power)
    requires |entry.littlenums| + |power.littlenums| > 7
  {
    var product := Nat(entry.littlenums) * Nat(power.littlenums);
    var s := ShiftOf(product, |entry.littlenums| + |power.littlenums| - 1, 6);
    next.number == product / RPow(s) && next.place == entry.exponent + power.exponent + s
  }

  lemma NextMinus(place: nat, power: Power, next: Power96)
    requires 1 <= place <= TABLE_SIZE && Normal(power.littlenums) && power.littlenums[0] != 0 && |power.littlenums| <= 6
    requires |Entry(true, place).littlenums| + |power.littlenums| > 7
    requires Follows(next, Entry(true, place), power) && next.number % RADIX != 0
    ensures var t := Times(Entry(true, place), power, 6);
      && Normal(t.littlenums) && t.littlenums[0] != 0 && |t.littlenums| == 6
      && Nat(t.littlenums) == next.number && t.exponent == next.place
  {
    hide Entry, ProductOf, Nat, AllLost, RPow;
    NothingLost(true, place, power.littlenums);
    EntryHasEnds(place);
    CutProduct(Entry(true, place).littlenums, power.littlenums, 6);
    TimesNormal(true, place, power, 6);
    LowestLittlenum(Times(Entry(true, place), power, 6).littlenums);
  }

  /** The same with the numbers at hand. */
  lemma FollowsWith(next: Power96, entry: Power, m: nat, power: Power, n: nat, s: nat, r: nat, top: nat)
    requires Nat(entry.littlenums) == m && Nat(power.littlenums) == n
    requires |entry.littlenums| + |power.littlenums| > 7
    requires RPow(|entry.littlenums| + |power.littlenums| - 1) == top && RPow(s) == r && r > 0
    requires s == |entry.littlenums| + |power.littlenums| - 7 + (if m * n >= top then 1 else 0)
    requires next.number == m * n / r && next.place == entry.exponent + power.exponent + s
    ensures Follows(next, entry, power)
  {
    hide Nat, RPow;
  }

  lemma EntryHasEnds(place: nat)
    requires 1 <= place <= TABLE_SIZE
    ensures var s := Entry(true, place).littlenums; Normal(s) && s[0] != 0
  {
    hide Negative;
  }

  lemma EntryNumbers(place: nat)
    requires 1 <= place <= 5
    ensures var entry := Entry(true, place);
      && entry.exponent == -20
      && |entry.littlenums| == (if place <= 3 then 20 else if place == 4 then 19 else 17)
      && Nat(entry.littlenums) == match place
         case 1 => MINUS_1 case 2 => MINUS_2 case 3 => MINUS_3 case 4 => MINUS_4 case _ => MINUS_5
  {
    hide Minus1, Minus2, Minus3, Minus4, Minus5, Nat, IsEntry;
  }

  lemma PlacePowers()
    ensures RPow(11) == 0x100000000000000000000000000000000000000000000
    ensures RPow(13) == 0x10000000000000000000000000000000000000000000000000000
    ensures RPow(14) == 0x100000000000000000000000000000000000000000000000000000000
    ensures RPow(16) == 0x10000000000000000000000000000000000000000000000000000000000000000
    ensures RPow(17) == 0x100000000000000000000000000000000000000000000000000000000000000000000
    ensures RPow(18) == 0x1000000000000000000000000000000000000000000000000000000000000000000000000
    ensures RPow(19) == 0x10000000000000000000000000000000000000000000000000000000000000000000000000000
    ensures RPow(20) == 0x100000000000000000000000000000000000000000000000000000000000000000000000000000000
    ensures RPow(22) == 0x10000000000000000000000000000000000000000000000000000000000000000000000000000000000000000
    ensures RPow(24) == 0x1000000000000000000000000000000000000000000000000000000000000000000000000000000000000000000000000
    ensures RPow(25) == 0x10000000000000000000000000000000000000000000000000000000000000000000000000000000000000000000000000000
  {
    hide RPow;
    RPowZero();
    RPowStep(0);
    RPowAdd(1, 1);
    RPowAdd(2, 1);
    RPowAdd(3, 2);
    RPowAdd(3, 3);
    RPowAdd(6, 5);
    RPowAdd(11, 2);
    RPowAdd(13, 1);
    RPowAdd(14, 2);
    RPowAdd(16, 1);
    RPowAdd(17, 1);
    RPowAdd(18, 1);
    RPowAdd(19, 1);
    RPowAdd(20, 2);
    RPowAdd(22, 2);
    RPowAdd(24, 1);
  }

  lemma MinusStep1(power: Power, low: nat)
    requires low < 1 && IsMinusTen(power, low)
    ensures IsMinusTen(Times(Entry(true, 1), power, 6), low + 1)
  {
    hide Entry, Times, Nat, RPow, Pow, Follows, IsEntry;
    PlacePowers();
    EntryNumbers(1);
    var entry, next := Entry(true, 1), MinusTen(low + 1);
    FollowsWith(next, entry, MINUS_1, power, 1, 14, RPow(14), RPow(20));
    NextMinus(1, power, next);
  }

  lemma MinusStep2(power: Power, low: nat)
    requires low < 2 && IsMinusTen(power, low)
    ensures IsMinusTen(Times(Entry(true, 2), power, 6), low + 2)
  {
    hide Entry, Times, Nat, RPow, Pow, Follows, IsEntry;
    PlacePowers();
    EntryNumbers(2);
    var entry, next := Entry(true, 2), MinusTen(low + 2);
    match low {
      case 0 => FollowsWith(next, entry, MINUS_2, power, MinusTen(0).number, 14, RPow(14), RPow(20));
      case 1 => FollowsWith(next, entry, MINUS_2, power, MinusTen(1).number, 20, RPow(20), RPow(25));
    }
    NextMinus(2, power, next);
  }

  lemma MinusStep3(power: Power, low: nat)
    requires low < 4 && IsMinusTen(power, low)
    ensures IsMinusTen(Times(Entry(true, 3), power, 6), low + 4)
  {
    hide Entry, Times, Nat, RPow, Pow, Follows, IsEntry;
    PlacePowers();
    EntryNumbers(3);
    var entry, next := Entry(true, 3), MinusTen(low + 4);
    match low {
      case 0 => FollowsWith(next, entry, MINUS_3, power, MinusTen(0).number, 14, RPow(14), RPow(20));
      case 1 => FollowsWith(next, entry, MINUS_3, power, MinusTen(1).number, 19, RPow(19), RPow(25));
      case 2 => FollowsWith(next, entry, MINUS_3, power, MinusTen(2).number, 19, RPow(19), RPow(25));
      case 3 => FollowsWith(next, entry, MINUS_3, power, MinusTen(3).number, 19, RPow(19), RPow(25));
    }
    NextMinus(3, power, next);
  }

  lemma MinusStep4(power: Power, low: nat)
    requires low < 8 && IsMinusTen(power, low)
    ensures IsMinusTen(Times(Entry(true, 4), power, 6), low + 8)
  {
    hide Entry, Times, Nat, RPow, Pow, Follows, IsEntry;
    PlacePowers();
    EntryNumbers(4);
    var entry, next := Entry(true, 4), MinusTen(low + 8);
    match low {
      case 0 => FollowsWith(next, entry, MINUS_4, power, MinusTen(0).number, 13, RPow(13), RPow(19));
      case 1 => FollowsWith(next, entry, MINUS_4, power, MinusTen(1).number, 19, RPow(19), RPow(24));
      case 2 => FollowsWith(next, entry, MINUS_4, power, MinusTen(2).number, 18, RPow(18), RPow(24));
      case 3 => FollowsWith(next, entry, MINUS_4, power, MinusTen(3).number, 18, RPow(18), RPow(24));
      case 4 => FollowsWith(next, entry, MINUS_4, power, MinusTen(4).number, 18, RPow(18), RPow(24));
      case 5 => FollowsWith(next, entry, MINUS_4, power, MinusTen(5).number, 19, RPow(19), RPow(24));
      case 6 => FollowsWith(next, entry, MINUS_4, power, MinusTen(6).number, 19, RPow(19), RPow(24));
      case 7 => FollowsWith(next, entry, MINUS_4, power, MinusTen(7).number, 18, RPow(18), RPow(24));
    }
    NextMinus(4, power, next);
  }

  lemma MinusStep5(power: Power, low: nat)
    requires low < 16 && IsMinusTen(power, low)
    ensures IsMinusTen(Times(Entry(true, 5), power, 6), low + 16)
  {
    hide Entry, Times, Nat, RPow, Pow, Follows, IsEntry;
    PlacePowers();
    EntryNumbers(5);
    var entry, next := Entry(true, 5), MinusTen(low + 16);
    match low {
      case 0 => FollowsWith(next, entry, MINUS_5, power, MinusTen(0).number, 11, RPow(11), RPow(17));
      case 1 => FollowsWith(next, entry, MINUS_5, power, MinusTen(1).number, 17, RPow(17), RPow(22));
      case 2 => FollowsWith(next, entry, MINUS_5, power, MinusTen(2).number, 17, RPow(17), RPow(22));
      case 3 => FollowsWith(next, entry, MINUS_5, power, MinusTen(3).number, 17, RPow(17), RPow(22));
      case 4 => FollowsWith(next, entry, MINUS_5, power, MinusTen(4).number, 16, RPow(16), RPow(22));
      case 5 => FollowsWith(next, entry, MINUS_5, power, MinusTen(5).number, 17, RPow(17), RPow(22));
      case 6 => FollowsWith(next, entry, MINUS_5, power, MinusTen(6).number, 17, RPow(17), RPow(22));
      case 7 => FollowsWith(next, entry, MINUS_5, power, MinusTen(7).number, 17, RPow(17), RPow(22));
      case 8 => FollowsWith(next, entry, MINUS_5, power, MinusTen(8).number, 17, RPow(17), RPow(22));
      case 9 => FollowsWith(next, entry, MINUS_5, power, MinusTen(9).number, 16, RPow(16), RPow(22));
      case 10 => FollowsWith(next, entry, MINUS_5, power, MinusTen(10).number, 17, RPow(17), RPow(22));
      case 11 => FollowsWith(next, entry, MINUS_5, power, MinusTen(11).number, 17, RPow(17), RPow(22));
      case 12 => FollowsWith(next, entry, MINUS_5, power, MinusTen(12).number, 17, RPow(17), RPow(22));
      case 13 => FollowsWith(next, entry, MINUS_5, power, MinusTen(13).number, 16, RPow(16), RPow(22));
      case 14 => FollowsWith(next, entry, MINUS_5, power, MinusTen(14).number, 16, RPow(16), RPow(22));
      case 15 => FollowsWith(next, entry, MINUS_5, power, MinusTen(15).number, 17, RPow(17), RPow(22));
    }
    NextMinus(5, power, next);
  }

  lemma MinusStep(place: nat, power: Power, low: nat)
    requires 1 <= place <= 5 && low < Pow2(place - 1) && low < 32 && IsMinusTen(power, low)
    ensures low + Pow2(place - 1) < 32 && IsMinusTen(Times(Entry(true, place), power, 6), low + Pow2(place - 1))
  {
    hide Entry, Times, Pow, Pow2, IsMinusTen;
    PlaceValues();
    match place {
      case 1 => MinusStep1(power, low);
      case 2 => MinusStep2(power, low);
      case 3 => MinusStep3(power, low);
      case 4 => MinusStep4(power, low);
      case 5 => MinusStep5(power, low);
    }
  }

  lemma {:induction false} RaiseMinus(e: nat, place: nat, power: Power, low: nat)
    requires 1 <= place <= 6 && low < Pow2(place - 1) && e < Pow2(6 - place) && low < 32 && IsMinusTen(power, low)
    ensures low + Scaled(e, place) < 32
    ensures IsMinusTen(Raise(e, place, true, power, 6).power, low + Scaled(e, place))
    decreases 6 - place
  {
    hide Entry, Times, Pow, Pow2, IsMinusTen, Scaled;
    HalfScaled(e, place);
    if place == 6 {
      Pow2Zero();
      NothingRaised(place, ONE);
    } else {
      Pow2Twice(place - 1);
      Pow2Twice(5 - place);
      if e % 2 == 1 {
        MinusStep(place, power, low);
        RaiseMinus(e / 2, place + 1, Times(Entry(true, place), power, 6), low + Pow2(place - 1));
      } else {
        RaiseMinus(e / 2, place + 1, power, low);
        SameRaise(e, place, true, power, 6);
      }
    }
  }

  /** What the loop computes in six littlenums for exponents down to -31, to the last bit. */
  lemma MinusTenIsComputed(e: nat)
    requires e < 32
    ensures IsMinusTen(Raise(e, 1, true, ONE, 6).power, e)
  {
    hide Raise, Pow;
    PlaceValues();
    assert IsMinusTen(ONE, 0) && Scaled(e, 1) == e;
    hide Pow2;
    RaiseMinus(e, 1, ONE, 0);
  }

  // ---------------------------------------------------------------- positive powers up to 10^31

  /** Exact, and with its low zeros dropped. */
  predicate IsPlainTen(power: Power, n: nat, place: nat)
    requires place > 0
  {
    IsNormalIn(power.littlenums, 6) && IsTen(power, n, place) && (n >= 16 ==> power.exponent > 0)
  }

  lemma PlainStep(place: nat, power: Power, n: nat)
    requires 1 <= place <= 5 && IsPlainTen(power, n, place)
    ensures IsPlainTen(Times(Positive(place), power, 6), n + Pow2(place - 1), place + 1)
  {
    hide IsTen, Times, Positive, Pow, Pow2;
    SameEntry(place);
    PlaceValues();
    TimesNormal(false, place, power, 6);
    if place <= 4 {
      EarlyTimes(place, power, n, 6);
      BelowPlace(power, n, place);
    } else {
      FifthTimes(place, power, n, 6);
      FifthPlace(power, n);
    }
  }

  lemma BelowPlace(power: Power, n: nat, place: nat)
    requires 1 <= place <= 4 && IsTen(power, n, place)
    ensures n + Pow2(place - 1) < 16
  {
    PlaceValues();
  }

  lemma FifthPlace(power: Power, n: nat)
    requires IsTen(power, n, 5) && Times(Positive(5), power, 6).littlenums != []
    ensures Times(Positive(5), power, 6).exponent > 0
  {
    hide ProductOf, Value, Ten, Pow2, Positive;
    PositiveExponent(5);
  }

  lemma {:induction false} RaisePlain(e: nat, place: nat, power: Power, n: nat)
    requires 1 <= place <= 6 && e < Pow2(6 - place) && IsPlainTen(power, n, place)
    ensures IsPlainTen(Raise(e, place, false, power, 6).power, n + Scaled(e, place), 6)
    decreases 6 - place
  {
    hide Entry, Positive, Times, Pow, Pow2, IsPlainTen, Scaled;
    HalfScaled(e, place);
    if place == 6 {
      Pow2Zero();
      NothingRaised(place, ONE);
    } else {
      Pow2Twice(5 - place);
      if e % 2 == 1 {
        SameEntry(place);
        PlainStep(place, power, n);
        RaisePlain(e / 2, place + 1, Times(Positive(place), power, 6), n + Pow2(place - 1));
      } else {
        PlainSkip(place, power, n);
        RaisePlain(e / 2, place + 1, power, n);
        SameRaise(e, place, false, power, 6);
      }
    }
  }

  lemma PlainSkip(place: nat, power: Power, n: nat)
    requires place > 0 && IsPlainTen(power, n, place)
    ensures IsPlainTen(power, n, place + 1)
  {
    hide Value, Ten, Pow2;
    Pow2Twice(place - 1);
  }

  /** Neither kind of power has a zero at its low end. */
  lemma SmallPowerStarts(e: nat, negative: bool)
    requires e < 32
    ensures var power := Raise(e, 1, negative, ONE, 6).power;
      Normal(power.littlenums) && LowZeros(power.littlenums) == 0 && (negative && e > 0 ==> |power.littlenums| == 6)
  {
    hide Raise, Value, Ten, LowZeros, Pow;
    var power := Raise(e, 1, negative, ONE, 6).power;
    PowerLoop.PowerIsNormal(e, negative, 6);
    if negative {
      MinusTenIsComputed(e);
      NoLowZeros(power.littlenums);
    } else {
      PlainOne();
      PlaceValues();
      RaisePlain(e, 1, ONE, 0);
      FewZeros(power, Scaled(e, 1));
    }
  }

  lemma PlainOne()
    ensures IsPlainTen(ONE, 0, 1)
  {
    Pow2Zero();
    TenZero();
    RPowZero();
  }
}
