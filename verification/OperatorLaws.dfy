/** What the operators of expressions compute, said without the program: each result by what is true of it and of no other
    64-bit number (cctools/as/expr.c). */
module OperatorLaws {
  import opened Arith
  import opened Operators

  // ---------------------------------------------------------------- the laws

  /** The 64-bit number is the exact one, or differs from it by a multiple of 2^64. */
  predicate IsExact(r: Int64, exact: int) {
    (r - exact) % 0x1_0000_0000_0000_0000 == 0
  }

  /** A bit of a number in two's complement. */
  predicate Bit(x: int, i: nat) {
    x / Pow2(i) % 2 == 1
  }

  /** A truth value is one or zero. */
  predicate IsTruth(r: Int64, holds: bool) {
    r == if holds then 1 else 0
  }

  /** The operations that have a meaning in C: a shift is by 0 to 63, and one quotient does not fit. */
  predicate HasMeaning(op: Operator, a: Int64, b: Int64) {
    && op != Illegal
    && (op in {LeftShift, RightShift} ==> 0 <= b < 64)
    && (op in {Divide, Modulus} ==> a != -0x8000_0000_0000_0000 || b != -1)
  }

  /** Division is towards zero: a == q * b + r with r smaller than b and not of the other sign than a. */
  predicate IsDivision(a: int, b: int, q: int, r: int) {
    && a == q * b + r
    && (-b < r < b || b < r < -b) && (r < 0 ==> a < 0) && (r > 0 ==> a > 0)
  }

  /** The result of an operation; by zero, division and remainder give zero. */
  ghost predicate IsResult(op: Operator, a: Int64, b: Int64, r: Int64)
    requires HasMeaning(op, a, b)
  {
    match op
    case Multiply => IsExact(r, a * b)
    case Add => IsExact(r, a + b)
    case Subtract => IsExact(r, a - b)
    case LeftShift => IsExact(r, a * Pow2(b))
    case RightShift => r * Pow2(b) <= a < (r + 1) * Pow2(b)
    case Divide => if b == 0 then r == 0 else IsDivision(a, b, r, a - r * b)
    case Modulus => if b == 0 then r == 0 else exists q :: IsDivision(a, b, q, r)
    case LessThan => IsTruth(r, a < b)
    case GreaterThan => IsTruth(r, b < a)
    case LessOrEqual => IsTruth(r, !(b < a))
    case GreaterOrEqual => IsTruth(r, !(a < b))
    case Equal => IsTruth(r, a == b)
    case NotEqual => IsTruth(r, !(a == b))
    case BitAnd => forall i: nat :: i < 64 ==> (Bit(r, i) <==> Bit(a, i) && Bit(b, i))
    case BitExclusiveOr => forall i: nat :: i < 64 ==> (Bit(r, i) <==> Bit(a, i) != Bit(b, i))
    case BitInclusiveOr => forall i: nat :: i < 64 ==> (Bit(r, i) <==> Bit(a, i) || Bit(b, i))
    case BitOrNot => forall i: nat :: i < 64 ==> (Bit(r, i) <==> Bit(a, i) || !Bit(b, i))
    case LogicalAnd => IsTruth(r, !(a == 0) && !(b == 0))
    case LogicalOr => IsTruth(r, !(a == 0 && b == 0))
  }

  /** The result of a unary operator: negative, logical complement, or complement of every bit. */
  ghost predicate IsUnaryResult(c: char, x: Int64, r: Int64) {
    match c
    case '-' => IsExact(r, -(x as int))
    case '!' => IsTruth(r, x == 0)
    case _ => forall i: nat :: i < 64 ==> (Bit(r, i) <==> !Bit(x, i))
  }

  // ---------------------------------------------------------------- numbers modulo 2^64

  lemma WrapIsExact(x: int)
    ensures IsExact(Wrap(x), x)
  {
  }

  lemma ExactIsUnique(r: Int64, s: Int64, x: int)
    requires IsExact(r, x) && IsExact(s, x)
    ensures r == s
  {
    ExactMeans(r, x);
    ExactMeans(s, x);
  }

  lemma ExactMeans(r: Int64, x: int)
    requires IsExact(r, x)
    ensures (r + HALF) as int == (x + HALF) % WHOLE
  {
    var k := (x - r) / WHOLE;
    DivModUnique(x + HALF, WHOLE, k, r + HALF);
  }

  // ---------------------------------------------------------------- bits

  lemma BitOfHalf(x: int, i: nat)
    ensures Bit(x, i + 1) == Bit(x / 2, i)
    ensures Bit(x, 0) == (x % 2 == 1)
  {
    Pow2Zero();
    Pow2Twice(i);
    hide Pow2;
    HalfThenRest(x, Pow2(i));
  }

  lemma HalfThenRest(x: int, m: nat)
    requires m > 0
    ensures x / 2 / m == x / (2 * m)
  {
    var q := x / 2 / m;
    var r, s := x / 2 % m, x % 2;
    assert x / 2 == q * m + r;
    assert x == q * (2 * m) + (2 * r + s);
    DivModUnique(x, 2 * m, q, 2 * r + s);
  }

  /** Numbers without bits below the sign are zero and minus one. */
  lemma SignOnly(x: int, i: nat)
    requires -1 <= x < 1
    ensures Bit(x, i) == (x < 0)
  {
    hide Pow2;
    if x < 0 {
      DivModUnique(x, Pow2(i), -1, Pow2(i) - 1);
    }
  }

  predicate Fits(x: int, n: nat) {
    -(Pow2(n) as int) <= x < Pow2(n)
  }

  lemma {:induction false} BitwiseBits(o: BitOperation, a: int, b: int, n: nat, i: nat)
    requires Fits(a, n) && Fits(b, n)
    ensures Bit(Bitwise(o, a, b, n), i) == Joined(o, Bit(a, i), Bit(b, i))
    decreases n
  {
    hide Bit;
    if n == 0 {
      SignOnly(a, i);
      SignOnly(b, i);
      SignOnly(Bitwise(o, a, b, n), i);
    } else {
      var half, low := Bitwise(o, a / 2, b / 2, n - 1), if Joined(o, a % 2 == 1, b % 2 == 1) then 1 else 0;
      assert Bitwise(o, a, b, n) == 2 * half + low;
      var j := if i == 0 then 0 else i - 1;
      BitOfHalf(a, j);
      BitOfHalf(b, j);
      BitOfHalf(2 * half + low, j);
      assert (2 * half + low) / 2 == half && (2 * half + low) % 2 == low;
      if i > 0 {
        BitwiseBits(o, a / 2, b / 2, n - 1, i - 1);
      }
    }
  }

  lemma {:induction false} BitsAreUnique(r: int, s: int, n: nat)
    requires Fits(r, n) && Fits(s, n) && forall i: nat :: i <= n ==> Bit(r, i) == Bit(s, i)
    ensures r == s
    decreases n
  {
    hide Bit;
    assert Bit(r, 0) == Bit(s, 0);
    if n == 0 {
      SignOnly(r, 0);
      SignOnly(s, 0);
    } else {
      BitOfHalf(r, 0);
      BitOfHalf(s, 0);
      forall i: nat | i <= n - 1 ensures Bit(r / 2, i) == Bit(s / 2, i) {
        BitOfHalf(r, i);
        BitOfHalf(s, i);
      }
      BitsAreUnique(r / 2, s / 2, n - 1);
    }
  }

  lemma SameBits(r: Int64, s: Int64)
    requires forall i: nat :: i < 64 ==> Bit(r, i) == Bit(s, i)
    ensures r == s
  {
    hide Bit, Pow2;
    SignBit();
    BitsAreUnique(r, s, 63);
  }

  lemma JoinBits(o: BitOperation, a: Int64, b: Int64, i: nat)
    ensures Bit(Join(o, a, b), i) == Joined(o, Bit(a, i), Bit(b, i))
  {
    hide Bit, Pow2, Bitwise, Joined;
    SignBit();
    BitwiseBits(o, a, b, 63, i);
  }

  lemma ComplementBit(x: Int64, i: nat)
    ensures Bit(Complement(x), i) == !Bit(x, i)
  {
    hide Pow2;
    var m := Pow2(i);
    var q, r := x / m, x % m;
    assert -1 - x == (-1 - q) * m + (m - 1 - r);
    DivModUnique(-1 - x, m, -1 - q, m - 1 - r);
  }

  // ---------------------------------------------------------------- division and shifts

  lemma QuotientDivides(a: Int64, b: Int64)
    requires b != 0
    ensures IsDivision(a, b, Quotient(a, b), Remainder(a, b))
  {
    Magnitudes(Abs(a), Abs(b));
    SignedQuotient(a, b);
    hide Quotient, Remainder, IsDivision;
    Signed(a, b, Abs(a), Abs(b), Abs(a) / Abs(b), Abs(a) % Abs(b), Quotient(a, b), Remainder(a, b));
  }

  lemma SignedQuotient(a: Int64, b: Int64)
    requires b != 0
    ensures Quotient(a, b) == WithSign(if (a < 0) == (b < 0) then 1 else -1, Abs(a) / Abs(b))
    ensures Remainder(a, b) == WithSign(if a < 0 then -1 else 1, Abs(a) % Abs(b))
  {
  }

  lemma Magnitudes(a: nat, b: nat)
    requires b > 0
    ensures a == (a / b) * b + a % b && 0 <= a % b < b
  {
  }

  function WithSign(sign: int, x: int): int {
    if sign < 0 then -x else x
  }

  lemma Signed(a: int, b: int, m: int, n: int, q: int, r: int, quotient: int, remainder: int)
    requires m == WithSign(if a < 0 then -1 else 1, a) && n == WithSign(if b < 0 then -1 else 1, b)
    requires m == q * n + r && 0 <= r < n
    requires quotient == WithSign(if (a < 0) == (b < 0) then 1 else -1, q) && remainder == WithSign(if a < 0 then -1 else 1, r)
    ensures IsDivision(a, b, quotient, remainder)
  {
    hide IsDivision;
    if a < 0 && b < 0 {
      BothNegative(m, n, q, r);
    } else if a < 0 {
      DividendNegative(m, n, q, r);
    } else if b < 0 {
      DivisorNegative(m, n, q, r);
    } else {
      NoneNegative(m, n, q, r);
    }
  }

  lemma NoneNegative(m: int, n: int, q: int, r: int)
    requires m == q * n + r && 0 <= r < n && m >= 0
    ensures IsDivision(m, n, q, r)
  {
  }

  lemma BothNegative(m: int, n: int, q: int, r: int)
    requires m == q * n + r && 0 <= r < n && m > 0
    ensures IsDivision(-m, -n, q, -r)
  {
    Opposite(q, n);
  }

  lemma DividendNegative(m: int, n: int, q: int, r: int)
    requires m == q * n + r && 0 <= r < n && m > 0
    ensures IsDivision(-m, n, -q, -r)
  {
    Opposite(q, n);
  }

  lemma DivisorNegative(m: int, n: int, q: int, r: int)
    requires m == q * n + r && 0 <= r < n && m >= 0
    ensures IsDivision(m, -n, -q, r)
  {
    Opposite(q, n);
  }

  lemma Opposite(x: int, y: int)
    ensures (-x) * y == -(x * y) && x * (-y) == -(x * y) && (-x) * (-y) == x * y
  {
  }

  lemma QuotientIsSmall(a: nat, b: nat)
    requires b > 0 && a <= HALF
    ensures a / b <= HALF && (b == 1 ==> a / b == a) && (b > 1 ==> a / b < HALF)
  {
    var q := a / b;
    assert a == q * b + a % b;
    MulAtLeast(b, q);
    if b > 1 {
      MulMonotone(2, b, q);
    }
  }

  lemma DivisionIsUnique(a: int, b: int, q: int, r: int, q': int, r': int)
    requires b != 0 && IsDivision(a, b, q, r) && IsDivision(a, b, q', r')
    ensures q == q' && r == r'
  {
    var d := q' - q;
    assert r - r' == d * b;
    if d != 0 {
      Multiples(d, b);
    }
  }

  lemma Multiples(d: int, b: int)
    requires d != 0 && b != 0
    ensures Abs(d * b) >= Abs(b)
  {
    if d > 0 && b > 0 {
      MulAtLeast(d, b);
    } else if d > 0 {
      MulAtLeast(d, -b);
    } else if b > 0 {
      MulAtLeast(-d, b);
    } else {
      MulAtLeast(-d, -b);
    }
  }

  lemma FloorIsUnique(a: int, m: nat, r: int)
    requires m > 0 && r * m <= a < (r + 1) * m
    ensures r == a / m
  {
    DivModUnique(a, m, r, a - r * m);
  }

  lemma FloorFits(a: Int64, m: nat)
    requires m > 0
    ensures a / m * m <= a < (a / m + 1) * m && -HALF <= a / m < HALF
  {
    var q := a / m;
    assert a == q * m + a % m;
    if q > 0 {
      MulAtLeast(m, q);
    } else if q < 0 {
      MulAtLeast(m, -1 - q);
    }
  }

  // ---------------------------------------------------------------- what is computed

  lemma MeaningIsDefined(op: Operator, a: Int64, b: Int64)
    ensures IsDefined(op, a, b) <==> HasMeaning(op, a, b)
  {
  }

  lemma ComputesDivision(op: Operator, a: Int64, b: Int64)
    requires op in {Divide, Modulus} && HasMeaning(op, a, b)
    ensures IsResult(op, a, b, Compute(op, a, b))
  {
    hide Quotient, Remainder, IsDivision;
    if b != 0 {
      QuotientDivides(a, b);
      QuotientFits(a, b);
    }
  }

  lemma QuotientFits(a: Int64, b: Int64)
    requires b != 0 && (a != -HALF || b != -1)
    ensures -HALF <= Quotient(a, b) < HALF && -HALF <= Remainder(a, b) < HALF
    ensures a as int - Quotient(a, b) * b as int == Remainder(a, b)
  {
    QuotientDivides(a, b);
    QuotientIsSmall(Abs(a), Abs(b));
  }

  lemma ComputesShift(op: Operator, a: Int64, b: Int64)
    requires op in {LeftShift, RightShift} && HasMeaning(op, a, b)
    ensures IsResult(op, a, b, Compute(op, a, b))
  {
    hide Pow2;
    WrapIsExact(a * Pow2(b));
    FloorFits(a, Pow2(b));
  }

  lemma ComputesBits(op: Operator, a: Int64, b: Int64)
    requires op in {BitAnd, BitExclusiveOr, BitInclusiveOr, BitOrNot}
    ensures IsResult(op, a, b, Compute(op, a, b))
  {
    hide Bit, Join, Complement;
    forall i: nat | i < 64
      ensures Bit(Join(And, a, b), i) == (Bit(a, i) && Bit(b, i))
      ensures Bit(Join(ExclusiveOr, a, b), i) == (Bit(a, i) != Bit(b, i))
      ensures Bit(Join(Or, a, b), i) == (Bit(a, i) || Bit(b, i))
      ensures Bit(Join(Or, a, Complement(b)), i) == (Bit(a, i) || !Bit(b, i))
    {
      JoinBits(And, a, b, i);
      JoinBits(ExclusiveOr, a, b, i);
      JoinBits(Or, a, b, i);
      JoinBits(Or, a, Complement(b), i);
      ComplementBit(b, i);
    }
  }

  /** What is computed obeys the law of its operator. */
  lemma ComputeObeys(op: Operator, a: Int64, b: Int64)
    requires HasMeaning(op, a, b)
    ensures IsDefined(op, a, b) && IsResult(op, a, b, Compute(op, a, b))
  {
    hide Pow2, Wrap, Quotient, Remainder, Join, Bit, IsExact;
    match op
    case Multiply => WrapIsExact(a * b);
    case Add => WrapIsExact(a + b);
    case Subtract => WrapIsExact(a - b);
    case LeftShift | RightShift => ComputesShift(op, a, b);
    case Divide | Modulus => ComputesDivision(op, a, b);
    case BitAnd | BitExclusiveOr | BitInclusiveOr | BitOrNot => ComputesBits(op, a, b);
    case _ =>
  }

  /** And no other number does. */
  lemma ResultIsUnique(op: Operator, a: Int64, b: Int64, r: Int64, s: Int64)
    requires HasMeaning(op, a, b) && IsResult(op, a, b, r) && IsResult(op, a, b, s)
    ensures r == s
  {
    hide Pow2, Bit, IsExact, IsDivision;
    match op
    case Multiply => ExactIsUnique(r, s, a * b);
    case Add => ExactIsUnique(r, s, a + b);
    case Subtract => ExactIsUnique(r, s, a - b);
    case LeftShift => ExactIsUnique(r, s, a * Pow2(b));
    case RightShift =>
      FloorIsUnique(a, Pow2(b), r);
      FloorIsUnique(a, Pow2(b), s);
    case Divide =>
      if b != 0 {
        DivisionIsUnique(a, b, r, a - r * b, s, a - s * b);
      }
    case Modulus =>
      if b != 0 {
        var p :| IsDivision(a, b, p, r);
        var q :| IsDivision(a, b, q, s);
        DivisionIsUnique(a, b, p, r, q, s);
      }
    case BitAnd | BitExclusiveOr | BitInclusiveOr | BitOrNot => SameBits(r, s);
    case _ =>
  }

  lemma UnaryObeys(c: char, x: Int64)
    ensures IsUnaryResult(c, x, UnaryValue(c, x))
  {
    hide Pow2, Wrap, Bit, IsExact, Complement;
    WrapIsExact(-(x as int));
    forall i: nat | i < 64 ensures Bit(Complement(x), i) == !Bit(x, i) {
      ComplementBit(x, i);
    }
  }

  lemma UnaryIsUnique(c: char, x: Int64, r: Int64, s: Int64)
    requires IsUnaryResult(c, x, r) && IsUnaryResult(c, x, s)
    ensures r == s
  {
    hide Pow2, Bit, IsExact;
    match c
    case '-' => ExactIsUnique(r, s, -(x as int));
    case '!' =>
    case _ => SameBits(r, s);
  }
}
