/** Real powers, and relative errors that add up over products: how near a computed number is to an exact one. */
module Nearness {
  import opened Arith

  /** b to the x, for exponents of either sign. */
  function RealPow(b: nat, x: int): (r: real)
    requires b > 0
    ensures r > 0.0
  {
    if x >= 0 then Pow(b, x) as real else 1.0 / (Pow(b, -x) as real)
  }

  lemma RealPowZero(b: nat)
    requires b > 0
    ensures RealPow(b, 0) == 1.0
  {
  }

  lemma RealPowStep(b: nat, x: int)
    requires b > 0
    ensures RealPow(b, x + 1) == b as real * RealPow(b, x)
  {
    hide Pow;
    if x >= 0 {
      PowStep(b, x);
    } else {
      PowStep(b, 0);
      PowStep(b, -x - 1);
      Inverse(b as real, Pow(b, -x - 1) as real);
    }
  }

  lemma Inverse(b: real, p: real)
    requires b > 0.0 && p > 0.0
    ensures b * p > 0.0 && b * (1.0 / (b * p)) == 1.0 / p
  {
    var q := 1.0 / (b * p);
    assert (b * p) * q == 1.0;
    assert (b * q) * p == 1.0;
  }

  lemma {:induction false} RealPowAdd(b: nat, x: int, y: int)
    requires b > 0
    ensures RealPow(b, x + y) == RealPow(b, x) * RealPow(b, y)
    decreases if y >= 0 then y else -y
  {
    hide RealPow;
    if y == 0 {
      RealPowZero(b);
    } else if y > 0 {
      RealPowAdd(b, x, y - 1);
      RealPowStep(b, x + y - 1);
      RealPowStep(b, y - 1);
      Regrouped(b as real, RealPow(b, x), RealPow(b, y - 1));
    } else {
      RealPowAdd(b, x, y + 1);
      RealPowStep(b, x + y);
      RealPowStep(b, y);
      Regrouped(b as real, RealPow(b, x), RealPow(b, y));
      Cancelled(b as real, RealPow(b, x + y), RealPow(b, x) * RealPow(b, y));
    }
  }

  lemma Regrouped(a: real, b: real, c: real)
    ensures b * (a * c) == a * (b * c)
  {
  }

  lemma Cancelled(a: real, b: real, c: real)
    requires a > 0.0 && a * b == a * c
    ensures b == c
  {
    assert a * (b - c) == 0.0;
  }

  // ---------------------------------------------------------------- relative errors

  /** v is the exact value, but for a relative error of at most t. */
  predicate Near(v: real, exact: real, t: real) {
    exact * (1.0 - t) <= v <= exact * (1.0 + t)
  }

  lemma RealMonotone(a: real, b: real, c: real)
    requires a <= b && c >= 0.0
    ensures a * c <= b * c
  {
    assert (b - a) * c >= 0.0;
  }

  lemma RealProducts(a: real, b: real, c: real, d: real)
    requires 0.0 <= a <= b && 0.0 <= c <= d
    ensures 0.0 <= a * c <= b * d
  {
    RealMonotone(a, b, c);
    RealMonotone(c, d, b);
  }

  lemma Wider(v: real, exact: real, s: real, t: real)
    requires exact >= 0.0 && s <= t && Near(v, exact, s)
    ensures Near(v, exact, t)
  {
    RealMonotone(1.0 - t, 1.0 - s, exact);
    RealMonotone(1.0 + s, 1.0 + t, exact);
  }

  lemma NearSame(v: real, exact: real, t: real, v': real, exact': real, t': real)
    requires Near(v, exact, t) && v == v' && exact == exact' && t == t'
    ensures Near(v', exact', t')
  {
  }

  lemma NotNegative(a: real, b: real)
    requires a >= 0.0 && b >= 0.0
    ensures a * b >= 0.0
  {
  }

  /** Relative errors add up over a product. */
  lemma NearProduct(v: real, a: real, s: real, w: real, b: real, t: real)
    requires a >= 0.0 && b >= 0.0 && 0.0 <= s <= 1.0 && 0.0 <= t <= 1.0
    requires Near(v, a, s) && Near(w, b, t)
    ensures Near(v * w, a * b, s + t + s * t)
  {
    NotNegative(a, 1.0 - s);
    NotNegative(b, 1.0 - t);
    var v0, v1, w0, w1 := a * (1.0 - s), a * (1.0 + s), b * (1.0 - t), b * (1.0 + t);
    LowerProduct(a, s, b, t);
    UpperProduct(a, s, b, t);
    Between(v0, v, v1, w0, w, w1, (a * b) * (1.0 - (s + t + s * t)), (a * b) * (1.0 + (s + t + s * t)));
  }

  lemma Between(v0: real, v: real, v1: real, w0: real, w: real, w1: real, low: real, high: real)
    requires 0.0 <= v0 <= v <= v1 && 0.0 <= w0 <= w <= w1 && low <= v0 * w0 && v1 * w1 <= high
    ensures low <= v * w <= high
  {
    RealProducts(v0, v, w0, w);
    RealProducts(v, v1, w, w1);
  }

  lemma LowerProduct(a: real, s: real, b: real, t: real)
    requires a >= 0.0 && b >= 0.0 && 0.0 <= s && 0.0 <= t
    ensures (a * b) * (1.0 - (s + t + s * t)) <= (a * (1.0 - s)) * (b * (1.0 - t))
  {
    NotNegative(s, t);
    NotNegative(a, b);
    RealMonotone(1.0 - (s + t + s * t), (1.0 - s) * (1.0 - t), a * b);
    Exchange(a, 1.0 - s, b, 1.0 - t);
  }

  lemma UpperProduct(a: real, s: real, b: real, t: real)
    ensures (a * b) * (1.0 + (s + t + s * t)) == (a * (1.0 + s)) * (b * (1.0 + t))
  {
    assert (1.0 + s) * (1.0 + t) == 1.0 + (s + t + s * t);
    Exchange(a, 1.0 + s, b, 1.0 + t);
  }

  lemma Exchange(a: real, s: real, b: real, t: real)
    ensures (a * b) * (s * t) == (a * s) * (b * t)
  {
  }

  lemma NearScaled(v: real, a: real, t: real, d: real, w: real, exact: real)
    requires d >= 0.0 && Near(v, a, t) && w == v * d && exact == a * d
    ensures Near(w, exact, t)
  {
    RealMonotone(a * (1.0 - t), v, d);
    RealMonotone(v, a * (1.0 + t), d);
    Commuted(a, 1.0 - t, d);
    Commuted(a, 1.0 + t, d);
  }

  lemma Commuted(a: real, b: real, c: real)
    ensures (a * b) * c == (a * c) * b
  {
  }

  /** Near to a number that is itself near. */
  lemma NearTwice(v: real, w: real, s: real, exact: real, t: real, e: real)
    requires exact >= 0.0 && 0.0 <= s && 0.0 <= t <= 1.0 && Near(v, w, s) && Near(w, exact, t) && e == s + t + s * t
    ensures Near(v, exact, e)
  {
    TwiceAbove(w, s, exact, t);
    if s <= 1.0 {
      TwiceBelow(w, s, exact, t);
    } else {
      TwiceFarBelow(w, s, exact, t);
    }
  }

  lemma Twofold(exact: real, s: real, t: real)
    ensures (exact * (1.0 + t)) * (1.0 + s) == exact * (1.0 + (s + t + s * t))
  {
    assert (1.0 + t) * (1.0 + s) == 1.0 + (s + t + s * t);
    assert (exact * (1.0 + t)) * (1.0 + s) == exact * ((1.0 + t) * (1.0 + s));
  }

  lemma TwiceAbove(w: real, s: real, exact: real, t: real)
    requires s >= 0.0 && w <= exact * (1.0 + t)
    ensures w * (1.0 + s) <= exact * (1.0 + (s + t + s * t))
  {
    RealMonotone(w, exact * (1.0 + t), 1.0 + s);
    Twofold(exact, s, t);
  }

  lemma TwiceBelow(w: real, s: real, exact: real, t: real)
    requires exact >= 0.0 && 0.0 <= s <= 1.0 && 0.0 <= t && exact * (1.0 - t) <= w
    ensures exact * (1.0 - (s + t + s * t)) <= w * (1.0 - s)
  {
    CutBelow(exact * (1.0 - t), w, s);
    SlightlyLess(exact, t, s);
    NotNegative(s, t);
    RealMonotone(1.0 - (s + t + s * t), 1.0 - (t + s), exact);
  }

  lemma TwiceFarBelow(w: real, s: real, exact: real, t: real)
    requires exact >= 0.0 && s > 1.0 && t >= 0.0 && w <= exact * (1.0 + t)
    ensures exact * (1.0 - (s + t + s * t)) <= w * (1.0 - s)
  {
    FarProduct(w, s - 1.0, exact, t);
    Negated(w, s - 1.0, 1.0 - s);
    Negated(exact, s + t + s * t - 1.0, 1.0 - (s + t + s * t));
    FarShare(s, exact, t);
    Opposite(w * (s - 1.0), exact * ((1.0 + t) * (s - 1.0)), exact * (s + t + s * t - 1.0),
             exact * (1.0 - (s + t + s * t)), w * (1.0 - s));
  }

  lemma Opposite(a: real, b: real, c: real, x: real, y: real)
    requires a <= b <= c && x == -c && y == -a
    ensures x <= y
  {
  }

  lemma FarProduct(w: real, s: real, exact: real, t: real)
    requires s >= 0.0 && w <= exact * (1.0 + t)
    ensures w * s <= exact * ((1.0 + t) * s)
  {
    RealMonotone(w, exact * (1.0 + t), s);
    assert (exact * (1.0 + t)) * s == exact * ((1.0 + t) * s);
  }

  lemma FarShare(s: real, exact: real, t: real)
    requires exact >= 0.0 && t >= 0.0
    ensures exact * ((1.0 + t) * (s - 1.0)) <= exact * (s + t + s * t - 1.0)
  {
    assert (1.0 + t) * (s - 1.0) == s + t + s * t - 1.0 - 2.0 * t;
    RealMonotone((1.0 + t) * (s - 1.0), s + t + s * t - 1.0, exact);
  }

  lemma Negated(a: real, b: real, c: real)
    requires c == -b
    ensures a * c == -(a * b)
  {
  }

  /** Cutting off adds its own relative error. */
  lemma NearCut(v: real, w: real, d: real, a: real, s: real)
    requires a >= 0.0 && 0.0 <= s <= 1.0 && 0.0 <= d <= 1.0
    requires w * (1.0 - d) <= v <= w && Near(w, a, s)
    ensures Near(v, a, s + d)
  {
    var low := a * (1.0 - s);
    CutBelow(low, w, d);
    SlightlyLess(a, s, d);
    RealMonotone(1.0 + s, 1.0 + (s + d), a);
  }

  lemma CutBelow(low: real, w: real, d: real)
    requires low <= w && d <= 1.0
    ensures low * (1.0 - d) <= w * (1.0 - d)
  {
    RealMonotone(low, w, 1.0 - d);
  }

  lemma SlightlyLess(a: real, s: real, d: real)
    requires a >= 0.0 && s >= 0.0 && d >= 0.0
    ensures a * (1.0 - (s + d)) <= (a * (1.0 - s)) * (1.0 - d)
  {
    NotNegative(s, d);
    RealMonotone(1.0 - (s + d), (1.0 - s) * (1.0 - d), a);
    assert a * ((1.0 - s) * (1.0 - d)) == (a * (1.0 - s)) * (1.0 - d);
  }
}
