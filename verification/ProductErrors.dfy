/** How much of a product flonum_multip cuts off (cctools/as/flonum-mult.c), and when it fills its buffer. */
module ProductErrors {
  import opened Arith
  import opened Bignum
  import opened Multiply
  import opened Nearness
  import opened NormalForm
  import opened PowerErrors
  import opened PowerLoop
  import opened PowersOfTen

  /** The largest share of a product that can have been cut off, by the littlenums that are left. */
  function Cut(a: seq<Littlenum>, b: seq<Littlenum>, capacity: nat): (d: real)
    requires capacity > 0
    ensures d >= 0.0
  {
    if ExactProduct(a, b, capacity) then 0.0 else RealPow(RADIX, 1 - |ProductOf(a, b, capacity).littlenums|)
  }

  lemma ShareIsSmall(m: nat, k: nat)
    requires k > 0 && m >= RPow(k - 1)
    ensures m as real * RealPow(RADIX, 1 - k) >= 1.0
    ensures RealPow(RADIX, 1 - k) <= 1.0
  {
    var p, d := RPow(k - 1) as real, RealPow(RADIX, 1 - k);
    NaturalPow(RADIX, k - 1);
    hide RPow, RealPow;
    assert p * d == 1.0;
    RealMonotone(p, m as real, d);
    RealMonotone(1.0, p, d);
  }

  /** A product less what wraps have lost, cut off after the places that are left. */
  lemma ProductBracket(a: seq<Littlenum>, b: seq<Littlenum>, capacity: nat)
    requires capacity > 0 && Normal(a) && Normal(b) && ProductOf(a, b, capacity).littlenums != []
    ensures var p := ProductOf(a, b, capacity);
      var v, kept := Nat(p.littlenums) * RPow(p.shift), Nat(a) * Nat(b) - AllLost(a, b);
      v <= kept < v + RPow(p.shift) && Nat(p.littlenums) >= RPow(|p.littlenums| - 1)
  {
    hide ProductOf, AllLost, Nat, RPow;
    ProductNormal(a, b, capacity);
    ProductValue(a, b, capacity);
    ComputedProduct(a, b, |a| + |b| - 1);
    var p := ProductOf(a, b, capacity);
    NatLeader(p.littlenums);
    QuotientBounds(Nat(a) * Nat(b) - AllLost(a, b), RPow(p.shift));
  }

  /** What is left, and what wraps have lost, make up the product but for the share cut off. */
  lemma ProductShare(a: seq<Littlenum>, b: seq<Littlenum>, capacity: nat)
    requires capacity > 0 && Normal(a) && Normal(b) && ProductOf(a, b, capacity).littlenums != []
    ensures Cut(a, b, capacity) <= 1.0
    ensures var p := ProductOf(a, b, capacity);
      var left, full := Nat(p.littlenums) * RPow(p.shift) + AllLost(a, b), Nat(a) * Nat(b);
      left <= full && full as real * (1.0 - Cut(a, b, capacity)) <= left as real
  {
    hide ProductOf, AllLost, Nat, RPow, RealPow;
    ProductBracket(a, b, capacity);
    var p := ProductOf(a, b, capacity);
    ShareIsSmall(Nat(p.littlenums), |p.littlenums|);
    if !ExactProduct(a, b, capacity) {
      LostShare(Nat(p.littlenums), RPow(p.shift), AllLost(a, b), Nat(a) * Nat(b), RealPow(RADIX, 1 - |p.littlenums|));
    }
  }

  lemma LostShare(m: nat, r: nat, lost: nat, full: nat, d: real)
    requires m * r <= full - lost <= m * r + r && m as real * d >= 1.0 && 0.0 <= d <= 1.0 && r > 0
    ensures full as real * (1.0 - d) <= (m * r + lost) as real
  {
    RealProduct(m, r);
    LeftOver(m as real, r as real, (full - lost) as real, lost as real, d);
  }

  lemma QuotientBounds(x: nat, r: nat)
    requires r > 0
    ensures x / r * r <= x < x / r * r + r
  {
  }

  lemma LeftOver(m: real, r: real, kept: real, lost: real, d: real)
    requires m * r <= kept <= m * r + r && lost >= 0.0 && m * d >= 1.0 && 0.0 <= d <= 1.0 && r > 0.0
    ensures (kept + lost) * (1.0 - d) <= m * r + lost
  {
    RealMonotone(1.0, m * d, r);
    assert (m * d) * r == (m * r) * d;
    RealMonotone(m * r, kept, d);
    NotNegative(lost, d);
    assert (kept + lost) * (1.0 - d) == kept - kept * d + lost - lost * d;
  }

  /** The same with the places of the factors. */
  lemma ProductWorth(a: Power, b: Power, capacity: nat)
    requires capacity > 0 && Normal(a.littlenums) && Normal(b.littlenums)
    requires ProductOf(a.littlenums, b.littlenums, capacity).littlenums != []
    ensures var p := ProductOf(a.littlenums, b.littlenums, capacity);
      var lost := AllLost(a.littlenums, b.littlenums) as real * RealPow(RADIX, a.exponent + b.exponent);
      var left, full := Worth(Power(p.littlenums, a.exponent + b.exponent + p.shift)) + lost, Worth(a) * Worth(b);
      full * (1.0 - Cut(a.littlenums, b.littlenums, capacity)) <= left <= full
  {
    hide ProductOf, AllLost, Nat, RPow, RealPow, Cut;
    var p := ProductOf(a.littlenums, b.littlenums, capacity);
    var x, y := RealPow(RADIX, a.exponent), RealPow(RADIX, b.exponent);
    ProductShare(a.littlenums, b.littlenums, capacity);
    RealPowAdd(RADIX, a.exponent, b.exponent);
    ShiftedWorth(p, a.exponent + b.exponent);
    var m, n, v := Nat(a.littlenums), Nat(b.littlenums), Nat(p.littlenums) * RPow(p.shift);
    RealProduct(m, n);
    hide Worth;
    Placed(m as real, x, n as real, y, v as real, AllLost(a.littlenums, b.littlenums) as real,
           1.0 - Cut(a.littlenums, b.littlenums, capacity));
    assert Worth(a) * Worth(b) == (m as real * x) * (n as real * y) by {
      WorthOf(a);
      WorthOf(b);
    }
  }

  lemma WorthOf(p: Power)
    ensures Worth(p) == Nat(p.littlenums) as real * RealPow(RADIX, p.exponent)
  {
  }

  lemma ShiftedWorth(p: Product, e: int)
    ensures Worth(Power(p.littlenums, e + p.shift)) == (Nat(p.littlenums) * RPow(p.shift)) as real * RealPow(RADIX, e)
  {
    hide Nat, Pow, RealPow;
    RealPowAdd(RADIX, e, p.shift);
    NaturalPow(RADIX, p.shift);
    RealProduct(Nat(p.littlenums), RPow(p.shift));
    Regrouped(RealPow(RADIX, e), Nat(p.littlenums) as real, RPow(p.shift) as real);
  }

  lemma Placed(a: real, x: real, b: real, y: real, v: real, lost: real, kept: real)
    requires x > 0.0 && y > 0.0 && v + lost <= a * b && (a * b) * kept <= v + lost
    ensures v * (x * y) + lost * (x * y) <= (a * x) * (b * y)
    ensures ((a * x) * (b * y)) * kept <= v * (x * y) + lost * (x * y)
  {
    var xy := x * y;
    NotNegative(x, y);
    Exchange(a, b, x, y);
    assert v * xy + lost * xy == (v + lost) * xy;
    RealMonotone(v + lost, a * b, xy);
    RealMonotone((a * b) * kept, v + lost, xy);
    assert ((a * b) * xy) * kept == ((a * b) * kept) * xy;
  }

  // ---------------------------------------------------------------- full buffers

  /** No more low columns than these can be zero. */
  lemma FewLowZeros(a: seq<Littlenum>, b: seq<Littlenum>, n: nat)
    requires Normal(a) && Normal(b) && n + 1 == |a| + |b|
    ensures LowZeros(Digits(a, b, n)) <= LowZeros(a) + LowZeros(b) + 1
  {
    LoneZeros(a);
    LoneZeros(b);
    var low := LowZeros(a) + LowZeros(b);
    if low + 2 <= n {
      hide LowZeros, Digits;
      var digits := Digits(a, b, n);
      SomeDigit(a, b, low + 2);
      DigitsPrefix(a, b, low + 2, n);
      FirstOther(digits, low + 2);
    }
  }

  lemma {:induction false} FirstOther(s: seq<Littlenum>, m: nat)
    requires m <= |s| && !AllZero(s[..m])
    ensures LowZeros(s) < m
  {
    if s[0] == 0 {
      assert s[..m] == [s[0]] + s[1..][..m - 1];
      FirstOther(s[1..], m - 1);
    }
  }

  /** When the columns dropped are not more than those the buffer is too short for, what is cut off fills the buffer. */
  lemma FitFull(digits: seq<Littlenum>, carry: Littlenum, capacity: nat)
    requires capacity > 0
    requires |digits| <= capacity || LowZeros(digits) <= |digits| - capacity
    ensures var p := Fit(digits, carry, capacity);
      |p.littlenums| == capacity || RPow(p.shift) * Nat(p.littlenums) == Nat(digits + [carry])
  {
    hide LowZeros, Nat, RPow;
    var d, p := Dropped(digits, capacity), Fit(digits, carry, capacity);
    if |digits| <= capacity && p.shift == d {
      ShiftExact(digits, carry, d);
      if carry == 0 {
        NatTopZero(digits[d..]);
      }
    }
  }

  /** With at most one column more dropped, at most one littlenum of the buffer stays empty. */
  lemma FitNearlyFull(digits: seq<Littlenum>, carry: Littlenum, capacity: nat)
    requires capacity > 0
    requires |digits| <= capacity + 1 || LowZeros(digits) <= |digits| - capacity + 1
    ensures var p := Fit(digits, carry, capacity);
      |p.littlenums| >= capacity - 1 || RPow(p.shift) * Nat(p.littlenums) == Nat(digits + [carry])
  {
    hide LowZeros, Nat, RPow;
    var d, p := Dropped(digits, capacity), Fit(digits, carry, capacity);
    if p.shift == d && d == LowZeros(digits) {
      ShiftExact(digits, carry, d);
      if carry == 0 {
        NatTopZero(digits[d..]);
      }
    }
  }

  /** Is a product sure to fill its buffer when it is not exact? */
  predicate Fills(a: seq<Littlenum>, b: seq<Littlenum>, capacity: nat) {
    |a| + |b| <= capacity + 1 || LowZeros(a) + LowZeros(b) + 2 <= |a| + |b| - capacity
  }

  lemma FullCut(a: seq<Littlenum>, b: seq<Littlenum>, capacity: nat)
    requires capacity > 0 && Normal(a) && Normal(b) && AllLost(a, b) == 0 && Fills(a, b, capacity)
    ensures Cut(a, b, capacity) <= RealPow(RADIX, 1 - capacity)
  {
    hide LowZeros, Digits, CarryInto, Nat, RPow, RealPow, Fit, AllLost;
    var n := |a| + |b| - 1;
    ComputedProduct(a, b, n);
    FewLowZeros(a, b, n);
    FitFull(Digits(a, b, n), CarryInto(a, b, n), capacity);
  }

  /** Is a product sure to fill all but one littlenum of its buffer when it is not exact? */
  predicate NearlyFills(a: seq<Littlenum>, b: seq<Littlenum>, capacity: nat) {
    |a| + |b| <= capacity + 2 || LowZeros(a) + LowZeros(b) + 1 <= |a| + |b| - capacity
  }

  lemma NearlyFullCut(a: seq<Littlenum>, b: seq<Littlenum>, capacity: nat)
    requires capacity > 1 && Normal(a) && Normal(b) && AllLost(a, b) == 0 && NearlyFills(a, b, capacity)
    requires ProductOf(a, b, capacity).littlenums != []
    ensures Cut(a, b, capacity) <= RealPow(RADIX, 2 - capacity)
  {
    hide LowZeros, Digits, CarryInto, Nat, RPow, RealPow, Fit, AllLost;
    var n := |a| + |b| - 1;
    ComputedProduct(a, b, n);
    FewLowZeros(a, b, n);
    FitNearlyFull(Digits(a, b, n), CarryInto(a, b, n), capacity);
    var k := |ProductOf(a, b, capacity).littlenums|;
    if k >= capacity - 1 {
      SmallerPower(1 - k, 2 - capacity);
    }
  }

  lemma {:induction false} SmallerPower(x: int, y: int)
    requires x <= y
    ensures RealPow(RADIX, x) <= RealPow(RADIX, y)
    decreases y - x
  {
    hide RealPow;
    if x < y {
      SmallerPower(x, y - 1);
      RealPowStep(RADIX, y - 1);
      RealMonotone(1.0, RADIX as real, RealPow(RADIX, y - 1));
    }
  }

  /** A product that fits without a last carry is exact. */
  lemma ExactWhenItFits(a: seq<Littlenum>, b: seq<Littlenum>, capacity: nat)
    requires capacity > 0 && Normal(a) && Normal(b) && AllLost(a, b) == 0
    requires |a| + |b| - 1 <= capacity && Nat(a) * Nat(b) < RPow(|a| + |b| - 1)
    ensures ExactProduct(a, b, capacity)
  {
    hide LowZeros, Digits, CarryInto, Nat, RPow, AllLost;
    var n := |a| + |b| - 1;
    var digits, carry := Digits(a, b, n), CarryInto(a, b, n);
    ComputedProduct(a, b, n);
    NatSnoc(digits, carry);
    if carry > 0 {
      MulAtLeast(carry, RPow(n));
    }
    ShiftExact(digits, 0, Dropped(digits, capacity));
    NatTopZero(digits[Dropped(digits, capacity)..]);
  }

  lemma ExactWhenNothingIsLost(a: seq<Littlenum>, b: seq<Littlenum>, capacity: nat)
    requires capacity > 0 && 0 < |a| + |b| <= capacity && AllLost(a, b) == 0
    ensures ExactProduct(a, b, capacity)
  {
    hide ProductOf, Nat, RPow, Wraps, Lost;
    LostIffWraps(a, b, |a| + |b| - 1);
    ExactIffNoWrap(a, b, capacity);
  }
}
