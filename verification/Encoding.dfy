/** What gen_to_words of cctools/as/atof-ieee.c makes of a number v * RADIX^exponent, and exactly when
    that is the nearest number of the format. */
module Encoding {
  import opened Arith
  import opened BitReader
  import opened Ieee754

  /** exponent_4: the biased exponent, were the range of exponents unlimited. */
  function BiasedExponent(f: Format, v: nat, exponent: int): int {
    16 * exponent + BitLength(v) + Bias(f) - 1
  }

  /** How far below one the biased exponent must be for the code to take the number as too large. */
  function UnderflowLimit(f: Format): int {
    f.fraction + 15 - f.exponentBits
  }

  /** The significand rounds up to a power of two under the exponent of all ones: the carry reaches the sign. */
  predicate CarryReachesSign(f: Format, v: nat, e: int) {
    e == Pow2(f.exponentBits) - 1 && Rounded(v, f.fraction + 1) == 2 * Pow2(f.fraction)
  }

  /** A denormal with sixteen significant bits, all ones, whose rounding is stored into its last word alone. */
  predicate CarryIsLost(f: Format, v: nat, e: int) {
    f.fraction + e == 16 && Leading(v, 17) == 0x1ffff
  }

  /** The exponent and fraction fields. */
  function Magnitude(f: Format, v: nat, e: int): nat {
    if e >= Pow2(f.exponentBits) || e <= -UnderflowLimit(f) then
      Infinity(f)
    else if e >= 1 then
      if CarryReachesSign(f, v, e) then 0 else (e - 1) * Pow2(f.fraction) + Rounded(v, f.fraction + 1)
    else if f.fraction + e < 0 || CarryIsLost(f, v, e) then
      0
    else
      Rounded(v, f.fraction + e)
  }

  function SignBit(f: Format): nat {
    Pow2(f.fraction + f.exponentBits)
  }

  /** The whole encoding, the sign first. */
  function Encoded(f: Format, negative: bool, v: nat, e: int): nat {
    (if negative && !CarryReachesSign(f, v, e) then SignBit(f) else 0) + Magnitude(f, v, e)
  }

  /** The guards of the branches that meet the standard. */
  predicate IsRight(f: Format, v: nat, e: int) {
    || e >= Pow2(f.exponentBits)
    || (e == Pow2(f.exponentBits) - 1 && Rounded(v, f.fraction + 1) == Pow2(f.fraction))
    || 1 <= e <= Pow2(f.exponentBits) - 2
    || (-UnderflowLimit(f) < e <= 0 && !CarryIsLost(f, v, e))
  }

  /** The formats F and D of the assembler. */
  predicate IsFOrD(f: Format) {
    f == SINGLE || f == DOUBLE
  }

  /** The encoding is that of the nearest number, ties away from zero, exactly in the right branches. */
  lemma NearestExactlyIfRight(f: Format, v: nat, exponent: int, up: nat, down: nat)
    requires IsFOrD(f) && v > 0
    requires up - down == 16 * exponent + Bias(f) + f.fraction - 1
    ensures var e := BiasedExponent(f, v, exponent);
      Nearest(f, v * Pow2(up), Pow2(down), Magnitude(f, v, e)) <==> IsRight(f, v, e)
  {
    hide Pow2, Decode, Rounded, Leading, Nearest, Bias, Infinity;
    var e := BiasedExponent(f, v, exponent);
    assert up - down == f.fraction + e - BitLength(v);
    ExponentRange(f);
    if e >= Pow2(f.exponentBits) - 1 {
      LargeIsInfinity(f, v, e, up, down);
    } else if e >= 1 {
      NormalIsNearest(f, v, e, up, down);
    } else if f.fraction + e >= 0 {
      DenormalIsNearest(f, v, e, up, down);
    } else {
      TinyIsZero(f, v, e, up, down);
      InfinityIsNotZero(f);
      if Nearest(f, v * Pow2(up), Pow2(down), Infinity(f)) {
        NearestIsUnique(f, v * Pow2(up), Pow2(down), 0, Infinity(f));
      }
    }
  }

  lemma ExponentRange(f: Format)
    requires IsFOrD(f)
    ensures Pow2(f.exponentBits) > 2
  {
    Pow2Add(2, f.exponentBits - 2);
    assert Pow2(2) == 4;
    hide Pow2;
    MulAtLeast(Pow2(f.exponentBits - 2), Pow2(2));
  }

  lemma InfinityIsNotZero(f: Format)
    requires Pow2(f.exponentBits) > 2
    ensures Infinity(f) >= 2 * Pow2(f.fraction)
  {
    hide Pow2;
    MulMonotone(2, Pow2(f.exponentBits) - 1, Pow2(f.fraction));
  }

  lemma LargeIsInfinity(f: Format, v: nat, e: nat, up: nat, down: nat)
    requires v > 0 && e >= Pow2(f.exponentBits) - 1 && Pow2(f.exponentBits) > 2
    requires f.exponentBits > 0 && UnderflowLimit(f) >= 0
    requires up - down == f.fraction + e - BitLength(v)
    ensures Nearest(f, v * Pow2(up), Pow2(down), Magnitude(f, v, e)) <==> IsRight(f, v, e)
  {
    hide Pow2, Decode, Rounded, Leading, Nearest, Infinity;
    var p, d := Pow2(f.fraction), Pow2(down);
    var num := v * Pow2(up);
    var w, g := Leading(v, f.fraction + 2), Pow2(down + (e - 1));
    LeadingRange(v, f.fraction + 1);
    LeadingBrackets(v, f.fraction + 1, e - 1, up, down);
    Pow2Add(1, f.fraction);
    Pow2One();
    Pow2Add(down, e - 1);
    DecodeInfinity(f);
    Pow2Monotone(Pow2(f.exponentBits) - 2, e - 1);
    PastInfinity(num, d, p, Pow2(Pow2(f.exponentBits) - 2), Pow2(e - 1), w);
    NearestInfinity(f, num, d, Magnitude(f, v, e));
    InfinityIsNotZero(f);
    AllOnes(f, v, e);
  }

  lemma AllOnes(f: Format, v: nat, e: nat)
    requires v > 0 && e >= Pow2(f.exponentBits) - 1 && Pow2(f.exponentBits) > 2
    requires UnderflowLimit(f) >= 0
    ensures Magnitude(f, v, e) == Infinity(f) <==> IsRight(f, v, e)
  {
    hide Pow2, Rounded;
    InfinityIsNotZero(f);
    MulPlusOne(Pow2(f.exponentBits) - 2, Pow2(f.fraction));
  }

  lemma PastInfinity(num: nat, den: nat, p: nat, top: nat, u: nat, w: nat)
    requires w >= 2 * p && w * (den * u) <= 2 * num && top <= u
    ensures num >= den * (p * top)
  {
    MulMonotone(2 * p, w, den * u);
    Regroup(2, p, den * u);
    MulMonotone(top, u, den);
    MulMonotone(den * top, den * u, p);
    Regroup(den, p, top);
  }

  lemma NormalIsNearest(f: Format, v: nat, e: nat, up: nat, down: nat)
    requires v > 0 && 1 <= e <= Pow2(f.exponentBits) - 2
    requires UnderflowLimit(f) >= 0
    requires up - down == f.fraction + e - BitLength(v)
    ensures Nearest(f, v * Pow2(up), Pow2(down), Magnitude(f, v, e))
  {
    hide Pow2, Decode, Leading, Nearest, Infinity, BitLength, CarryReachesSign;
    NoCarryIntoSign(f, v, e);
    var p := Pow2(f.fraction);
    var w := Leading(v, f.fraction + 2);
    LeadingRange(v, f.fraction + 1);
    LeadingBrackets(v, f.fraction + 1, e - 1, up, down);
    Pow2Twice(f.fraction);
    Pow2Twice(f.fraction + 1);
    Pow2Add(down, e - 1);
    BelowInfinity(f, e, (w + 1) / 2);
    NearestUnit(f, v * Pow2(up), Pow2(down), e, w);
  }

  lemma NoCarryIntoSign(f: Format, v: nat, e: nat)
    requires e <= Pow2(f.exponentBits) - 2
    ensures !CarryReachesSign(f, v, e)
  {
  }

  lemma BelowInfinity(f: Format, e: nat, q: nat)
    requires 1 <= e <= Pow2(f.exponentBits) - 2 && q <= 2 * Pow2(f.fraction)
    ensures (e - 1) * Pow2(f.fraction) + q <= Infinity(f)
  {
    hide Pow2;
    MulMonotone(e + 1, Pow2(f.exponentBits) - 1, Pow2(f.fraction));
    assert (e + 1) * Pow2(f.fraction) == (e - 1) * Pow2(f.fraction) + 2 * Pow2(f.fraction);
  }

  lemma DenormalIsNearest(f: Format, v: nat, e: int, up: nat, down: nat)
    requires v > 0 && 0 <= f.fraction + e <= f.fraction && Pow2(f.exponentBits) > 2
    requires UnderflowLimit(f) > f.fraction
    requires up - down == f.fraction + e - BitLength(v)
    ensures Nearest(f, v * Pow2(up), Pow2(down), Magnitude(f, v, e)) <==> IsRight(f, v, e)
  {
    hide Pow2, Decode, Leading, Nearest, Infinity;
    var m := f.fraction + e;
    var w := Leading(v, m + 1);
    LeadingRange(v, m);
    LeadingBrackets(v, m, 0, up, down);
    Pow2Zero();
    Pow2Monotone(m + 1, f.fraction + 1);
    Pow2Add(1, f.fraction);
    Pow2One();
    InfinityIsNotZero(f);
    NearestUnit(f, v * Pow2(up), Pow2(down), 1, w);
    if CarryIsLost(f, v, e) && Nearest(f, v * Pow2(up), Pow2(down), 0) {
      NearestIsUnique(f, v * Pow2(up), Pow2(down), 0, (w + 1) / 2);
    }
  }

  lemma TinyIsZero(f: Format, v: nat, e: int, up: nat, down: nat)
    requires v > 0 && f.fraction + e < 0
    requires up - down == f.fraction + e - BitLength(v)
    ensures Nearest(f, v * Pow2(up), Pow2(down), 0)
  {
    hide Pow2, Decode, Leading, Nearest;
    var k := -(f.fraction + e);
    LeadingBrackets(v, 0, 0, up + k, down);
    LeadingRange(v, 0);
    Pow2Zero();
    Pow2One();
    Pow2Add(up, k);
    Pow2Monotone(1, k);
    TwiceLess(v * Pow2(up), Pow2(k), Pow2(down));
    Regroup(v, Pow2(up), Pow2(k));
    NearestUnit(f, v * Pow2(up), Pow2(down), 1, 0);
  }

  lemma TwiceLess(num: nat, k: nat, den: nat)
    requires 2 <= k && 2 * (num * k) < 2 * den
    ensures 2 * num < den
  {
    MulMonotone(2, k, num);
  }

  // ---------------------------------------------------------------- where it is not right

  /** 1.5 * 2^128 has the exponent of all ones, and is encoded as if that were any other: as not a number. */
  lemma AllOnesExample(up: nat, down: nat)
    requires up - down == 16 * 7 + Bias(SINGLE) + SINGLE.fraction - 1
    ensures var v := 0x18000;
      var m := Magnitude(SINGLE, v, BiasedExponent(SINGLE, v, 7));
      m > Infinity(SINGLE) && !Nearest(SINGLE, v * Pow2(up), Pow2(down), m)
  {
    var v := 0x18000;
    ExampleBits(v, 17, 0);
    ExampleRounded(v, 17, 24);
    SinglePowers();
    hide Pow2, BitLength, Rounded, Leading, Nearest;
    NearestExactlyIfRight(SINGLE, v, 7, up, down);
    assert BiasedExponent(SINGLE, v, 7) == 255;
  }

  /** Of 0x1ffff * 2^-150 a single number keeps sixteen bits, which are all ones and round up to zero. */
  lemma LostCarryExample(up: nat, down: nat)
    requires up - down == 16 * -10 + Bias(SINGLE) + SINGLE.fraction - 1
    ensures var v := 0x7fffc00;
      var m := Magnitude(SINGLE, v, BiasedExponent(SINGLE, v, -10));
      m == 0 && !Nearest(SINGLE, v * Pow2(up), Pow2(down), m)
  {
    var v := 0x7fffc00;
    ExampleBits(v, 27, 10);
    SinglePowers();
    assert Pow2(10) == 1024;
    hide Pow2, BitLength, Rounded, Nearest;
    NearestExactlyIfRight(SINGLE, v, -10, up, down);
    assert BiasedExponent(SINGLE, v, -10) == -7;
    assert Leading(v, 17) == v / Pow2(10);
  }

  /** 2^-160 is encoded as infinity. */
  lemma TooSmallExample(up: nat, down: nat)
    requires up - down == 16 * -10 + Bias(SINGLE) + SINGLE.fraction - 1
    ensures var m := Magnitude(SINGLE, 1, BiasedExponent(SINGLE, 1, -10));
      m == Infinity(SINGLE) && !Nearest(SINGLE, 1 * Pow2(up), Pow2(down), m)
  {
    assert BitLength(1) == 1;
    SinglePowers();
    hide Pow2, BitLength, Rounded, Nearest;
    NearestExactlyIfRight(SINGLE, 1, -10, up, down);
    assert BiasedExponent(SINGLE, 1, -10) == -33;
  }

  lemma SinglePowers()
    ensures Pow2(7) == 128 && Pow2(8) == 256 && Pow2(22) == 0x40_0000 && Pow2(23) == 0x80_0000
    ensures Bias(SINGLE) == 127
  {
    assert Pow2(7) == 128 && Pow2(8) == 256 && Pow2(6) == 64;
    hide Pow2;
    Pow2Words();
    Pow2Add(16, 6);
    Pow2Add(16, 7);
  }

  lemma ExampleBits(v: nat, n: nat, k: nat)
    requires (v == 0x18000 && n == 17) || (v == 0x7fffc00 && n == 27)
    ensures BitLength(v) == n
  {
    assert Pow2(10) == 1024 && Pow2(1) == 2;
    hide Pow2, BitLength;
    Pow2Words();
    Pow2Add(16, 1);
    Pow2Add(16, 10);
    Pow2Add(26, 1);
    BitLengthUnique(v, n);
  }

  lemma ExampleRounded(v: nat, n: nat, m: nat)
    requires v == 0x18000 && n == 17 && m == 24 && BitLength(v) == n
    ensures Rounded(v, m) == 0xc0_0000
  {
    assert Pow2(8) == 256;
    hide Pow2, BitLength;
    assert Leading(v, m + 1) == v * Pow2(8);
  }
}
