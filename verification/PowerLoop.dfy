/** The loop of atof_generic that multiplies up a power of ten, one table entry for each bit of the decimal
    exponent (cctools/as/atof-generic.c). */
module PowerLoop {
  import opened Arith
  import opened Bignum
  import opened BitReader
  import opened Decimal
  import opened Multiply
  import opened NormalForm
  import opened PowerTables
  import opened PowersOfTen
  import F = Flonum

  const ONE := Power([1], 0)

  /** flonum_multip and flonum_copy in a row, with the same room for both. A product that is lost altogether
      leaves the exponent as it was. */
  function Times(entry: Power, power: Power, capacity: nat): Power
    requires capacity > 0
  {
    var p := ProductOf(entry.littlenums, power.littlenums, capacity);
    if p.littlenums == [] then Power([], power.exponent)
    else Power(p.littlenums, entry.exponent + power.exponent + p.shift)
  }

  datatype Outcome = Outcome(power: Power, overflow: bool)

  /** The bits of e from the lowest on, which stands for the entry at the given place. */
  function Raise(e: nat, place: nat, negative: bool, power: Power, capacity: nat): Outcome
    requires place > 0 && capacity > 0
  {
    if e == 0 then Outcome(power, false)
    else if e % 2 == 0 then Raise(e / 2, place + 1, negative, power, capacity)
    else if place > TABLE_SIZE then Outcome(power, true)
    else Raise(e / 2, place + 1, negative, Times(Entry(negative, place), power, capacity), capacity)
  }

  // ---------------------------------------------------------------- overflow

  lemma {:induction false} PastTheTable(e: nat, place: nat, negative: bool, power: Power, capacity: nat)
    requires place > TABLE_SIZE && capacity > 0
    ensures Raise(e, place, negative, power, capacity).overflow <==> e > 0
  {
    hide Entry, Times;
    if e > 0 && e % 2 == 0 {
      PastTheTable(e / 2, place + 1, negative, power, capacity);
    }
  }

  lemma {:induction false} RaiseOverflows(e: nat, place: nat, negative: bool, power: Power, capacity: nat)
    requires 1 <= place <= TABLE_SIZE + 1 && capacity > 0
    ensures Raise(e, place, negative, power, capacity).overflow <==> e >= Pow2(TABLE_SIZE + 1 - place)
    decreases e
  {
    hide Entry, Times;
    if place > TABLE_SIZE {
      PastTheTable(e, place, negative, power, capacity);
    } else if e > 0 {
      assert Pow2(TABLE_SIZE + 1 - place) == 2 * Pow2(TABLE_SIZE - place);
      if e % 2 == 0 {
        RaiseOverflows(e / 2, place + 1, negative, power, capacity);
      } else {
        RaiseOverflows(e / 2, place + 1, negative, Times(Entry(negative, place), power, capacity), capacity);
      }
    }
  }

  /** The exponent is too large for the tables exactly from 2^11 on. */
  lemma OverflowIff(e: nat, negative: bool, capacity: nat)
    requires capacity > 0
    ensures Raise(e, 1, negative, ONE, capacity).overflow <==> e >= 2048
  {
    hide Raise;
    RaiseOverflows(e, 1, negative, ONE, capacity);
    assert Pow2(11) == 2048;
  }

  // ---------------------------------------------------------------- normal form

  /** In normal form, with room for a flonum of the given capacity. */
  predicate IsNormalIn(s: seq<Littlenum>, capacity: nat) {
    Normal(s) && |s| <= capacity
  }

  /** A step of the loop keeps the normal form, whatever wraps or is cut off: no entry can lose the product. */
  lemma TimesNormal(negative: bool, place: nat, power: Power, capacity: nat)
    requires 1 <= place <= TABLE_SIZE && IsNormalIn(power.littlenums, capacity)
    ensures IsNormalIn(Times(Entry(negative, place), power, capacity).littlenums, capacity)
  {
    hide Entry, ProductOf;
    var a := Entry(negative, place).littlenums;
    ProductNormal(a, power.littlenums, capacity);
    assert |a| > 1 ==> a[..|a|-1][0] == a[0];
  }

  lemma {:induction false} RaiseNormal(e: nat, place: nat, negative: bool, power: Power, capacity: nat)
    requires place > 0 && capacity > 0 && IsNormalIn(power.littlenums, capacity)
    ensures IsNormalIn(Raise(e, place, negative, power, capacity).power.littlenums, capacity)
  {
    hide Entry, Times, IsNormalIn;
    if e > 0 {
      if e % 2 == 0 {
        RaiseNormal(e / 2, place + 1, negative, power, capacity);
      } else if place <= TABLE_SIZE {
        TimesNormal(negative, place, power, capacity);
        RaiseNormal(e / 2, place + 1, negative, Times(Entry(negative, place), power, capacity), capacity);
      }
    }
  }

  /** Every power of ten that the loop computes has a leader other than zero. */
  lemma PowerIsNormal(e: nat, negative: bool, capacity: nat)
    requires capacity > 0
    ensures IsNormalIn(Raise(e, 1, negative, ONE, capacity).power.littlenums, capacity)
  {
    hide Raise;
    RaiseNormal(e, 1, negative, ONE, capacity);
  }

  // ---------------------------------------------------------------- exact powers

  /** Nothing of the product is shifted out or lost in a wrap. */
  predicate ExactProduct(a: seq<Littlenum>, b: seq<Littlenum>, capacity: nat)
    requires capacity > 0
  {
    var p := ProductOf(a, b, capacity);
    RPow(p.shift) * Nat(p.littlenums) == Nat(a) * Nat(b)
  }

  /** Every multiplication of the loop is exact. */
  predicate ExactSteps(e: nat, place: nat, power: Power, capacity: nat)
    requires place > 0 && capacity > 0
  {
    if e == 0 then true
    else if e % 2 == 0 then ExactSteps(e / 2, place + 1, power, capacity)
    else
      && place <= TABLE_SIZE
      && ExactProduct(Positive(place).littlenums, power.littlenums, capacity)
      && ExactSteps(e / 2, place + 1, Times(Positive(place), power, capacity), capacity)
  }

  lemma TimesValue(entry: Power, power: Power, capacity: nat)
    requires capacity > 0 && ExactProduct(entry.littlenums, power.littlenums, capacity)
    requires entry.exponent >= 0 && power.exponent >= 0
    ensures var t := Times(entry, power, capacity);
      t.exponent >= 0 && Value(t) == Value(entry) * Value(power)
  {
    hide ProductOf, Nat, RPow;
    var p := ProductOf(entry.littlenums, power.littlenums, capacity);
    RPowAdd(entry.exponent, power.exponent);
    RPowAdd(entry.exponent + power.exponent, p.shift);
    Rearrange(Nat(entry.littlenums), RPow(entry.exponent), Nat(power.littlenums), RPow(power.exponent),
              RPow(p.shift), Nat(p.littlenums));
    if p.littlenums == [] {
      assert Nat([]) == 0 by { NatZero([]); }
    }
  }

  lemma Rearrange(a: nat, r: nat, b: nat, t: nat, u: nat, n: nat)
    requires u * n == a * b
    ensures n * ((r * t) * u) == (a * r) * (b * t)
  {
    assert n * ((r * t) * u) == (u * n) * (r * t);
    assert (a * b) * (r * t) == (a * r) * (b * t);
  }

  /** The outcome is the power times ten to the n. */
  predicate Multiplied(r: Outcome, power: Power, n: nat)
    requires power.exponent >= 0
  {
    !r.overflow && r.power.exponent >= 0 && Value(r.power) == Value(power) * Ten(n)
  }

  function Scaled(e: nat, place: nat): nat
    requires place > 0
  {
    e * Pow2(place - 1)
  }

  /** Multiplying by one power of ten and then by another. */
  lemma MultipliedTwice(r: Outcome, power: Power, next: Power, m: nat, n: nat)
    requires power.exponent >= 0 && next.exponent >= 0
    requires Value(next) == Ten(m) * Value(power) && Multiplied(r, next, n)
    ensures Multiplied(r, power, m + n)
  {
    hide Value, Ten;
    TenAdd(m, n);
    Regroup(Value(power), Ten(m), Ten(n));
  }

  lemma HalfScaled(e: nat, place: nat)
    requires place > 0
    ensures Scaled(e, place) == (if e % 2 == 1 then Pow2(place - 1) else 0) + Scaled(e / 2, place + 1)
  {
    Pow2Twice(place - 1);
    hide Pow2;
    HalveExponent(e, Pow2(place - 1));
  }

  lemma HalfBelow(e: nat, place: nat)
    requires 1 <= place < 8 && e < Pow2(8 - place)
    ensures e / 2 < Pow2(8 - (place + 1))
  {
    Pow2Twice(7 - place);
  }

  /** When no multiplication drops anything and no entry after the seventh is used, the loop raises to the power. */
  lemma {:induction false} RaiseValue(e: nat, place: nat, power: Power, capacity: nat)
    requires 1 <= place <= 8 && capacity > 0 && power.exponent >= 0
    requires e < Pow2(8 - place) && ExactSteps(e, place, power, capacity)
    ensures Multiplied(Raise(e, place, false, power, capacity), power, Scaled(e, place))
    decreases e
  {
    hide Times, ExactProduct, Value, Ten, Positive, Pow, Pow2, Scaled, Multiplied, IsEntry;
    HalfScaled(e, place);
    if e == 0 {
      NothingRaised(place, power);
    } else if place == 8 {
      Pow2Zero();
    } else {
      HalfBelow(e, place);
      if e % 2 == 0 {
        RaiseValue(e / 2, place + 1, power, capacity);
      } else {
        var next := Times(Positive(place), power, capacity);
        EntryIsExactIff(place);
        TimesValue(Positive(place), power, capacity);
        RaiseValue(e / 2, place + 1, next, capacity);
        MultipliedTwice(Raise(e / 2, place + 1, false, next, capacity), power, next, Pow2(place - 1), Scaled(e / 2, place + 1));
      }
    }
  }

  lemma NothingRaised(place: nat, power: Power)
    requires place > 0 && power.exponent >= 0
    ensures Scaled(0, place) == 0 && Multiplied(Outcome(power, false), power, 0)
  {
    TenZero();
  }

  lemma TenZero()
    ensures Ten(0) == 1
  {
  }

  lemma TenAdd(m: nat, n: nat)
    ensures Ten(m + n) == Ten(m) * Ten(n)
  {
    PowAdd(10, m, n);
  }

  lemma HalveExponent(e: nat, p: nat)
    ensures e / 2 * (2 * p) == (e - e % 2) * p
    ensures e % 2 == 1 ==> e * p == p + e / 2 * (2 * p)
    ensures e % 2 == 0 ==> e * p == e / 2 * (2 * p)
  {
    var h := e / 2;
    assert e == 2 * h + e % 2;
    assert h * (2 * p) == (2 * h) * p;
  }

  /** The power of ten, exactly, when nothing is dropped on the way. */
  lemma PowerIsExact(e: nat, capacity: nat)
    requires e < 128 && capacity > 0 && ExactSteps(e, 1, ONE, capacity)
    ensures var r := Raise(e, 1, false, ONE, capacity);
      !r.overflow && r.power.exponent >= 0 && Value(r.power) == Ten(e)
  {
    hide Raise, ExactSteps, Ten;
    assert Pow2(7) == 128 && Pow2(0) == 1;
    assert Value(ONE) == 1;
    RaiseValue(e, 1, ONE, capacity);
    assert Scaled(e, 1) == e;
  }

  lemma TenFifteen()
    ensures Ten(15) == 1000000000000000 && Ten(9) == 1000000000
  {
    assert Ten(7) == 10000000;
    hide Ten;
    TenValues();
    TenAdd(8, 7);
    TenAdd(8, 1);
  }

  // ---------------------------------------------------------------- short powers

  /** A number below RADIX^k needs no more than k littlenums. */
  lemma NormalLength(p: Power, k: nat)
    requires Normal(p.littlenums) && p.exponent >= 0 && Value(p) < RPow(k)
    ensures |p.littlenums| <= k
  {
    hide RPow, Nat;
    NatLeader(p.littlenums);
    MulAtLeast(RPow(p.exponent), Nat(p.littlenums));
    if |p.littlenums| > k {
      RPowAdd(k, |p.littlenums| - 1 - k);
      MulAtLeast(RPow(|p.littlenums| - 1 - k), RPow(k));
    }
  }

  /** Short factors are multiplied exactly and keep the normal form. */
  lemma ShortProduct(a: seq<Littlenum>, b: seq<Littlenum>, capacity: nat)
    requires capacity > 0 && Normal(a) && Normal(b) && Terms(a, b) <= 2 && |a| + |b| <= capacity
    ensures ExactProduct(a, b, capacity) && Normal(ProductOf(a, b, capacity).littlenums)
  {
    hide ProductOf, Nat, RPow, Wraps, Lost;
    forall n: nat ensures Wraps(a, b, n) == 0 {
      ShortFactorsNeverWrap(a, b, n);
    }
    LostIffWraps(a, b, |a| + |b| - 1);
    ExactIffNoWrap(a, b, capacity);
    ProductNormal(a, b, capacity);
  }

  lemma ShortEntry(place: nat)
    requires 1 <= place <= 4
    ensures |Positive(place).littlenums| == if place == 4 then 2 else 1
    ensures Normal(Positive(place).littlenums)
  {
  }

  /** Ten to less than eight fits two littlenums, and to less than four fits one. */
  lemma SmallTens(n: nat)
    requires n < 8
    ensures Ten(n) < RPow(2) && (n < 4 ==> Ten(n) < RPow(1))
  {
    TenMonotone(n, 7);
    if n < 4 {
      TenMonotone(n, 3);
    }
    assert Ten(7) == 10000000 && Ten(3) == 1000;
    RadixPowers();
  }

  lemma {:induction false} TenMonotone(m: nat, n: nat)
    requires m <= n
    ensures Ten(m) <= Ten(n)
  {
    TenAdd(m, n - m);
    hide Ten;
    MulAtLeast(Ten(n - m), Ten(m));
  }

  lemma HalfOf(e: nat, place: nat, n: nat)
    requires 1 <= place <= 5 && 0 < e < Pow2(5 - place) && n < Pow2(place - 1)
    ensures place < 5 && e / 2 < Pow2(5 - (place + 1)) && n + Pow2(place - 1) < Pow2((place + 1) - 1)
    ensures n < Pow2((place + 1) - 1)
  {
    hide Pow2;
    Pow2Zero();
    if place < 5 {
      Pow2Twice(4 - place);
      Pow2Twice(place - 1);
    }
  }

  /** One turn of the loop for a positive exponent. */
  lemma OneStep(e: nat, place: nat, power: Power, capacity: nat)
    requires 1 <= place <= 5 && capacity > 0
    ensures var half, next := e / 2, if e % 2 == 0 then power else Times(Positive(place), power, capacity);
      if e == 0 then ExactSteps(e, place, power, capacity) && Raise(e, place, false, power, capacity).power == power
      else
        && Raise(e, place, false, power, capacity) == Raise(half, place + 1, false, next, capacity)
        && (ExactSteps(e, place, power, capacity) <==>
              && (e % 2 == 1 ==> ExactProduct(Positive(place).littlenums, power.littlenums, capacity))
              && ExactSteps(half, place + 1, next, capacity))
  {
    hide Times, ExactProduct, Positive;
  }

  /** Up to 10^15 every step is exact in four littlenums. */
  lemma {:induction false} ShortRaise(e: nat, place: nat, power: Power, n: nat, capacity: nat)
    requires 1 <= place <= 5 && capacity >= 4 && e < Pow2(5 - place) && n < Pow2(place - 1)
    requires Normal(power.littlenums) && power.exponent >= 0 && Value(power) == Ten(n)
    ensures ExactSteps(e, place, power, capacity)
    ensures Normal(Raise(e, place, false, power, capacity).power.littlenums)
    decreases e
  {
    hide Times, ExactProduct, Value, Ten, Positive, Normal, Pow, Pow2, Raise, ExactSteps;
    OneStep(e, place, power, capacity);
    if e > 0 {
      HalfOf(e, place, n);
      if e % 2 == 0 {
        ShortRaise(e / 2, place + 1, power, n, capacity);
      } else {
        ShortStep(place, power, n, capacity);
        ShortRaise(e / 2, place + 1, Times(Positive(place), power, capacity), n + Pow2(place - 1), capacity);
      }
    }
  }

  lemma ShortStep(place: nat, power: Power, n: nat, capacity: nat)
    requires 1 <= place <= 4 && capacity >= 4 && n < Pow2(place - 1)
    requires Normal(power.littlenums) && power.exponent >= 0 && Value(power) == Ten(n)
    ensures ExactProduct(Positive(place).littlenums, power.littlenums, capacity)
    ensures var t := Times(Positive(place), power, capacity);
      Normal(t.littlenums) && t.exponent >= 0 && Value(t) == Ten(n + Pow2(place - 1))
  {
    PlaceValues();
    hide ExactProduct, Value, Ten, Positive, Pow2, ProductOf;
    SmallTens(n);
    NormalLength(power, 2);
    if place < 4 {
      NormalLength(power, 1);
    }
    ShortEntry(place);
    ShortProduct(Positive(place).littlenums, power.littlenums, capacity);
    EntryIsExactIff(place);
    TimesValue(Positive(place), power, capacity);
    TenAdd(n, Pow2(place - 1));
  }

  // ---------------------------------------------------------------- the loop

  /** A table entry as a flonum. */
  method TableEntry(negative: bool, place: nat) returns (f: F.Flonum)
    requires 1 <= place <= TABLE_SIZE
    ensures fresh(f) && fresh(f.low) && f.Valid() && f.sign == '+'
    ensures f.Littlenums() == Entry(negative, place).littlenums && f.exponent == Entry(negative, place).exponent
  {
    hide Entry;
    var entry := Entry(negative, place);
    var n := |entry.littlenums|;
    f := new F.Flonum(n);
    for k := 0 to n
      invariant f.leader == -1 && f.exponent == 0 && f.sign == '+'
      invariant forall m :: 0 <= m < k ==> f.low[m] == entry.littlenums[m]
    {
      f.low[k] := entry.littlenums[k];
    }
    f.leader := n - 1;
    f.exponent := entry.exponent;
    assert f.Littlenums() == entry.littlenums;
  }

  /** Multiplies one entry into the power, by way of the temporary. */
  method MultiplyIn(entry: F.Flonum, power: F.Flonum, temporary: F.Flonum)
    requires entry.Valid() && power.Valid() && temporary.Valid()
    requires entry.sign == '+' && power.sign == '+' && power.low.Length == temporary.low.Length
    requires entry != temporary && entry != power && power != temporary
    requires entry.low != temporary.low && entry.low != power.low && power.low != temporary.low
    modifies power, power.low, temporary, temporary.low
    ensures power.Valid() && temporary.Valid() && power.sign == '+'
    ensures Power(power.Littlenums(), power.exponent)
      == Times(Power(entry.Littlenums(), entry.exponent), old(Power(power.Littlenums(), power.exponent)), power.low.Length)
  {
    hide ProductOf;
    ghost var before := power.exponent;
    F.FlonumMultip(entry, power, temporary);
    F.FlonumCopy(temporary, power);
  }

  /** Computes the power of ten, or reports that the tables cannot. */
  method PowerOfTen(exponent: nat, negative: bool, capacity: nat) returns (power: F.Flonum, overflow: bool)
    requires capacity > 0
    ensures fresh(power) && fresh(power.low) && power.Valid() && power.sign == '+' && power.low.Length == capacity
    ensures Outcome(Power(power.Littlenums(), power.exponent), overflow) == Raise(exponent, 1, negative, ONE, capacity)
  {
    hide Entry, Times;
    ghost var result := Raise(exponent, 1, negative, ONE, capacity);
    power := new F.Flonum(capacity);
    power.low[0] := 1;
    power.leader := 0;
    var temporary := new F.Flonum(capacity);
    overflow := false;
    var e, place := exponent, 1;
    assert power.Littlenums() == [1];
    while e != 0
      invariant fresh(power) && fresh(power.low) && power.Valid() && power.sign == '+' && power.low.Length == capacity
      invariant fresh(temporary) && fresh(temporary.low) && temporary.Valid() && temporary.low.Length == capacity
      invariant power != temporary && power.low != temporary.low && place > 0
      invariant overflow ==> e == 0 && result == Outcome(Power(power.Littlenums(), power.exponent), true)
      invariant !overflow ==> result == Raise(e, place, negative, Power(power.Littlenums(), power.exponent), capacity)
    {
      if e % 2 == 1 {
        if place > TABLE_SIZE {
          overflow := true;
          e := 0;
        } else {
          var entry := TableEntry(negative, place);
          MultiplyIn(entry, power, temporary);
        }
      }
      e := e / 2;
      place := place + 1;
    }
  }
}
