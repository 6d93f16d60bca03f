/** The binary interchange formats of IEEE 754-2008, section 3.4, and what rounding to the nearest of
    their numbers means (section 4.3.1, ties away from zero). */
module Ieee754 {
  import opened Arith
  import opened BitReader

  /** fraction is the number of bits after the hidden one. */
  datatype Format = Format(fraction: nat, exponentBits: nat)

  const SINGLE := Format(23, 8)
  const DOUBLE := Format(52, 11)

  function Bias(f: Format): int {
    if f.exponentBits == 0 then 0 else Pow2(f.exponentBits - 1) - 1
  }

  function Infinity(f: Format): nat {
    (Pow2(f.exponentBits) - 1) * Pow2(f.fraction)
  }

  /** The number that the exponent and fraction fields denote, counted in the smallest denormal,
      2^(1 - Bias - fraction). Infinity stands for the number next after the largest one, as it does
      when the standard rounds. */
  function Decode(f: Format, magnitude: nat): nat {
    var e, m := magnitude / Pow2(f.fraction), magnitude % Pow2(f.fraction);
    if e == 0 then m else (Pow2(f.fraction) + m) * Pow2(e - 1)
  }

  function Distance(a: int, b: int): nat {
    if a <= b then b - a else a - b
  }

  /** magnitude is at least as near to num / den as other is, and further from zero if it is just as near. */
  predicate NoFurther(f: Format, num: nat, den: nat, magnitude: nat, other: nat) {
    var d, d' := Distance(num, den * Decode(f, magnitude)), Distance(num, den * Decode(f, other));
    d <= d' && (d == d' ==> Decode(f, other) <= Decode(f, magnitude))
  }

  ghost predicate Nearest(f: Format, num: nat, den: nat, magnitude: nat) {
    magnitude <= Infinity(f) &&
    forall other: nat :: other <= Infinity(f) ==> NoFurther(f, num, den, magnitude, other)
  }

  // ---------------------------------------------------------------- the order of the numbers

  lemma DecodeAt(f: Format, e: nat, q: nat)
    requires e >= 1 && q <= 2 * Pow2(f.fraction) && (e == 1 || Pow2(f.fraction) <= q)
    ensures Decode(f, (e - 1) * Pow2(f.fraction) + q) == q * Pow2(e - 1)
  {
    hide Pow2;
    var p := Pow2(f.fraction);
    Pow2Zero();
    Pow2Add(1, e - 1);
    assert Pow2(1) == 2 by { Pow2One(); }
    if q < p {
      DivModUnique(q, p, 0, q);
    } else if q < 2 * p {
      assert (e - 1) * p + q == e * p + (q - p);
      DivModUnique((e - 1) * p + q, p, e, q - p);
    } else {
      assert (e - 1) * p + q == (e + 1) * p;
      DivModUnique((e + 1) * p, p, e + 1, 0);
      assert p * Pow2(e) == q * Pow2(e - 1) by { assert p * (2 * Pow2(e - 1)) == (2 * p) * Pow2(e - 1); }
    }
  }

  /** Every encoding has an exponent of at least one and a significand that may lack the hidden bit. */
  lemma Parts(f: Format, magnitude: nat) returns (e: nat, q: nat)
    ensures e >= 1 && q < 2 * Pow2(f.fraction) && (e == 1 || Pow2(f.fraction) <= q)
    ensures magnitude == (e - 1) * Pow2(f.fraction) + q
  {
    hide Pow2;
    var p := Pow2(f.fraction);
    e, q := magnitude / p, magnitude % p;
    assert magnitude == e * p + q;
    if e == 0 {
      e := 1;
    } else {
      q := q + p;
      assert e * p == (e - 1) * p + p;
    }
  }

  lemma DecodeStep(f: Format, magnitude: nat)
    ensures Decode(f, magnitude) < Decode(f, magnitude + 1)
  {
    hide Pow2, Decode;
    var e, q := Parts(f, magnitude);
    DecodeAt(f, e, q);
    DecodeAt(f, e, q + 1);
    assert (q + 1) * Pow2(e - 1) == q * Pow2(e - 1) + Pow2(e - 1);
  }

  lemma {:induction false} DecodeMonotone(f: Format, a: nat, b: nat)
    requires a < b
    ensures Decode(f, a) < Decode(f, b)
    decreases b
  {
    hide Decode;
    DecodeStep(f, b - 1);
    if a < b - 1 {
      DecodeMonotone(f, a, b - 1);
    }
  }

  lemma DecodeInfinity(f: Format)
    requires f.exponentBits > 0
    ensures Pow2(f.exponentBits) >= 2
    ensures Decode(f, Infinity(f)) == Pow2(f.fraction) * Pow2(Pow2(f.exponentBits) - 2)
  {
    var e := Pow2(f.exponentBits) - 1;
    Pow2Add(1, f.exponentBits - 1);
    Pow2One();
    hide Pow2, Decode;
    assert e * Pow2(f.fraction) == (e - 1) * Pow2(f.fraction) + Pow2(f.fraction);
    DecodeAt(f, e, Pow2(f.fraction));
  }

  // ---------------------------------------------------------------- rounding

  /** How many bits a number has up to its highest one. */
  function BitLength(v: nat): nat {
    if v == 0 then 0 else 1 + BitLength(v / 2)
  }

  lemma {:induction false} BitLengthBounds(v: nat)
    requires v > 0
    ensures BitLength(v) > 0
    ensures Pow2(BitLength(v) - 1) <= v < Pow2(BitLength(v))
  {
    if v > 1 {
      BitLengthBounds(v / 2);
    }
  }

  /** The first m significant bits. */
  function Leading(v: nat, m: nat): nat {
    TopBits(v, BitLength(v), m)
  }

  /** The first m significant bits, raised by one when the next bit is set. */
  function Rounded(v: nat, m: nat): nat {
    (Leading(v, m + 1) + 1) / 2
  }

  lemma BitLengthUnique(v: nat, b: nat)
    requires b > 0 && Pow2(b - 1) <= v < Pow2(b)
    ensures BitLength(v) == b
  {
    hide Pow2, BitLength;
    BitLengthBounds(v);
    var c := BitLength(v);
    if c < b {
      Pow2Monotone(c, b - 1);
    } else if b < c {
      Pow2Monotone(b, c - 1);
    }
  }

  lemma LeadingRange(v: nat, m: nat)
    requires v > 0
    ensures Leading(v, m + 1) < Pow2(m + 1)
    ensures Leading(v, m + 1) >= Pow2(m)
  {
    BitLengthBounds(v);
    hide Pow2, BitLength;
    var b := BitLength(v);
    if m + 1 <= b {
      ShortRange(v, b, m);
    } else {
      LongRange(v, b, m);
    }
  }

  lemma LongRange(v: nat, b: nat, m: nat)
    requires 1 <= b <= m && Pow2(b - 1) <= v < Pow2(b)
    ensures Pow2(m) <= v * Pow2(m + 1 - b) < Pow2(m + 1)
  {
    hide Pow2;
    Pow2Add(b, m + 1 - b);
    Pow2Add(b - 1, m + 1 - b);
    ProductBetween(Pow2(b - 1), v, Pow2(b), Pow2(m + 1 - b));
  }

  lemma ShortRange(v: nat, b: nat, m: nat)
    requires m + 1 <= b && Pow2(b - 1) <= v < Pow2(b)
    ensures Pow2(m) <= v / Pow2(b - m - 1) < Pow2(m + 1)
  {
    hide Pow2;
    Pow2Add(m, b - m - 1);
    Pow2Add(m + 1, b - m - 1);
    QuotientBelow(v, Pow2(b - m - 1), Pow2(m + 1));
    QuotientAtLeast(v, Pow2(b - m - 1), Pow2(m));
  }

  lemma ProductBetween(a: nat, v: nat, b: nat, c: nat)
    requires a <= v < b && c > 0
    ensures a * c <= v * c < b * c
  {
    MulMonotone(a, v, c);
    MulMonotone(v + 1, b, c);
    MulPlusOne(v, c);
  }

  lemma QuotientAtLeast(x: nat, a: nat, b: nat)
    requires a > 0 && b * a <= x
    ensures x / a >= b
  {
    MulPlusOne(x / a, a);
    if x / a < b {
      MulMonotone(x / a + 1, b, a);
    }
  }

  /** Twice v * 2^up lies from the leading m + 1 bits up to the next number, in units of 2^(down + u). */
  lemma LeadingBrackets(v: nat, m: nat, u: nat, up: nat, down: nat)
    requires v > 0 && up - down == m + u - BitLength(v)
    ensures var w, g := Leading(v, m + 1), Pow2(down + u);
      w * g <= 2 * (v * Pow2(up)) < (w + 1) * g
  {
    hide Pow2, BitLength;
    var b := BitLength(v);
    var w, g := Leading(v, m + 1), Pow2(down + u);
    Pow2Add(1, up);
    Pow2One();
    Regroup(v, 2, Pow2(up));
    if m + 1 <= b {
      var c := Pow2(b - m - 1);
      Pow2Add(b - m - 1, up + 1);
      assert b - m - 1 + (up + 1) == down + u;
      Scale(v, v / c, c, v % c, Pow2(up + 1));
    } else {
      Pow2Add(m + 1 - b, down + u);
      assert up + 1 == m + 1 - b + (down + u);
      Regroup(v, Pow2(m + 1 - b), g);
      MulPlusOne(w, g);
    }
  }

  lemma MulPlusOne(a: int, b: int)
    ensures (a + 1) * b == a * b + b
  {
  }

  lemma Scale(v: nat, w: nat, c: nat, r: nat, k: nat)
    requires v == w * c + r && r < c && k >= 1
    ensures w * (c * k) <= v * k < (w + 1) * (c * k)
  {
    assert v * k == w * (c * k) + r * k;
    assert (w + 1) * (c * k) == w * (c * k) + c * k;
    MulMonotone(r + 1, c, k);
    assert (r + 1) * k == r * k + k;
  }

  // ---------------------------------------------------------------- nearest

  /** A number within half a unit of q units is nearest to the encoding of q units. */
  lemma NearestUnit(f: Format, num: nat, den: nat, e: nat, w: nat)
    requires e >= 1 && den > 0
    requires var q := (w + 1) / 2; q <= 2 * Pow2(f.fraction) && (e == 1 || Pow2(f.fraction) <= q)
    requires e == 1 || w >= 2 * Pow2(f.fraction)
    requires w * (den * Pow2(e - 1)) <= 2 * num < (w + 1) * (den * Pow2(e - 1))
    requires (e - 1) * Pow2(f.fraction) + (w + 1) / 2 <= Infinity(f)
    ensures Nearest(f, num, den, (e - 1) * Pow2(f.fraction) + (w + 1) / 2)
  {
    hide Pow2, Decode, Infinity;
    var p, u, q := Pow2(f.fraction), Pow2(e - 1), (w + 1) / 2;
    var magnitude := (e - 1) * p + q;
    DecodeAt(f, e, q);
    forall other: nat | other <= Infinity(f) ensures NoFurther(f, num, den, magnitude, other) {
      if other > magnitude {
        AtLeastNext(f, e, q, other);
        Above(num, den, u, q, w, Decode(f, other));
      } else if other < magnitude {
        DecodeMonotone(f, other, magnitude);
        if q > p || e == 1 {
          AtMostPrevious(f, e, q, other);
          Below(num, den, u, q, w, Decode(f, other));
        } else {
          BelowPower(num, den, u, q, w, Decode(f, other));
        }
      }
    }
  }

  lemma AtLeastNext(f: Format, e: nat, q: nat, other: nat)
    requires e >= 1 && q <= 2 * Pow2(f.fraction) && (e == 1 || Pow2(f.fraction) <= q)
    requires other > (e - 1) * Pow2(f.fraction) + q
    ensures Decode(f, other) >= (q + 1) * Pow2(e - 1)
  {
    hide Pow2, Decode;
    var p := Pow2(f.fraction);
    var next := (e - 1) * p + q + 1;
    if other > next {
      DecodeMonotone(f, next, other);
    }
    if q < 2 * p {
      DecodeAt(f, e, q + 1);
    } else {
      MulPlusOne(e - 1, p);
      assert next == (e + 1 - 1) * p + (p + 1);
      DecodeAt(f, e + 1, p + 1);
      Pow2Add(1, e - 1);
      Pow2One();
      Regroup(2, p + 1, Pow2(e - 1));
      MulMonotone(q + 1, 2 * (p + 1), Pow2(e - 1));
    }
  }

  lemma AtMostPrevious(f: Format, e: nat, q: nat, other: nat)
    requires e >= 1 && q <= 2 * Pow2(f.fraction) && (e == 1 || Pow2(f.fraction) < q)
    requires other < (e - 1) * Pow2(f.fraction) + q
    ensures q > 0 && Decode(f, other) <= (q - 1) * Pow2(e - 1)
  {
    hide Pow2, Decode;
    assert q > 0;
    DecodeAt(f, e, q - 1);
    var last := (e - 1) * Pow2(f.fraction) + (q - 1);
    if other < last {
      DecodeMonotone(f, other, last);
    }
  }

  lemma Above(num: nat, den: nat, u: nat, q: nat, w: nat, d: nat)
    requires q == (w + 1) / 2 && w * (den * u) <= 2 * num < (w + 1) * (den * u) && d >= (q + 1) * u
    ensures Distance(num, den * (q * u)) < Distance(num, den * d)
  {
    var g := den * u;
    Regroup(den, q, u);
    Regroup(den, q + 1, u);
    MulMonotone((q + 1) * u, d, den);
    MulMonotone(w + 1, 2 * q + 1, g);
    MulPlusOne(q, g);
    MulPlusOne(2 * q, g);
    Regroup(2, q, g);
  }

  lemma Below(num: nat, den: nat, u: nat, q: nat, w: nat, d: nat)
    requires q == (w + 1) / 2 && w * (den * u) <= 2 * num < (w + 1) * (den * u)
    requires q > 0 && d <= (q - 1) * u
    ensures Distance(num, den * (q * u)) <= Distance(num, den * d)
  {
    var g := den * u;
    Regroup(den, q, u);
    Regroup(den, q - 1, u);
    MulMonotone(d, (q - 1) * u, den);
    MulMonotone(2 * q - 1, w, g);
    MulPlusOne(q - 1, g);
    MulPlusOne(2 * q - 1, g);
    Regroup(2, q, g);
  }

  lemma BelowPower(num: nat, den: nat, u: nat, q: nat, w: nat, d: nat)
    requires w >= 2 * q && w * (den * u) <= 2 * num && d <= q * u
    ensures Distance(num, den * (q * u)) <= Distance(num, den * d)
  {
    var g := den * u;
    assert den * (q * u) == q * g;
    MulMonotone(2 * q, w, g);
    assert (2 * q) * g == 2 * (q * g);
    MulMonotone(d, q * u, den);
  }

  /** From infinity on nothing but infinity is nearest. */
  lemma NearestInfinity(f: Format, num: nat, den: nat, magnitude: nat)
    requires den > 0 && num >= den * Decode(f, Infinity(f))
    ensures Nearest(f, num, den, magnitude) <==> magnitude == Infinity(f)
  {
    hide Decode, Infinity;
    forall other: nat | other < Infinity(f)
      ensures NoFurther(f, num, den, Infinity(f), other) && !NoFurther(f, num, den, other, Infinity(f))
    {
      DecodeMonotone(f, other, Infinity(f));
      MulMonotone(Decode(f, other) + 1, Decode(f, Infinity(f)), den);
      MulPlusOne(Decode(f, other), den);
    }
    assert NoFurther(f, num, den, Infinity(f), Infinity(f));
    if magnitude < Infinity(f) {
      assert !NoFurther(f, num, den, magnitude, Infinity(f));
    }
  }

  /** No two encodings are nearest to one number. */
  lemma NearestIsUnique(f: Format, num: nat, den: nat, a: nat, b: nat)
    requires Nearest(f, num, den, a) && Nearest(f, num, den, b)
    ensures a == b
  {
    hide Decode;
    assert NoFurther(f, num, den, a, b) && NoFurther(f, num, den, b, a);
    if a < b {
      DecodeMonotone(f, a, b);
    } else if b < a {
      DecodeMonotone(f, b, a);
    }
  }
}
