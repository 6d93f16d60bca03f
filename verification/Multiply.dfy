/** The arithmetic of flonum_multip (cctools/as/flonum-mult.c): column sums with carries, kept in
    32-bit words, on littlenum strings as values. */
module Multiply {
  import opened Arith
  import opened Bignum

  const WORD := 0x1_0000_0000   // what a uint32_t holds, plus one

  // ---------------------------------------------------------------- exact columns

  /** The terms a[i] * b[j] with i + j == n. */
  function Column(a: seq<Littlenum>, b: seq<Littlenum>, n: nat): nat
    decreases a
  {
    if a == [] then 0
    else (if n < |b| then a[0] * b[n] else 0) + if n == 0 then 0 else Column(a[1..], b, n - 1)
  }

  /** The first n columns, each at its place. */
  function Columns(a: seq<Littlenum>, b: seq<Littlenum>, n: nat): nat {
    if n == 0 then 0 else Columns(a, b, n - 1) + Column(a, b, n - 1) * RPow(n - 1)
  }

  function Prefix(b: seq<Littlenum>, n: nat): seq<Littlenum> {
    if n < |b| then b[..n] else b
  }

  lemma PrefixStep(b: seq<Littlenum>, n: nat)
    ensures Nat(Prefix(b, n + 1)) == Nat(Prefix(b, n)) + (if n < |b| then b[n] * RPow(n) else 0)
  {
    if n < |b| {
      assert Prefix(b, n + 1) == b[..n] + [b[n]];
      NatSnoc(b[..n], b[n]);
    }
  }

  /** Peeling off the lowest littlenum of the first factor. */
  lemma {:induction false} ColumnsPeel(a: seq<Littlenum>, b: seq<Littlenum>, n: nat)
    requires a != []
    ensures Columns(a, b, n)
      == a[0] * Nat(Prefix(b, n)) + RADIX * (if n == 0 then 0 else Columns(a[1..], b, n - 1))
  {
    if n == 0 {
      assert Prefix(b, 0) == [];
    } else {
      ColumnsPeel(a, b, n - 1);
      PeelOne(a, b, n);
    }
  }

  lemma Distribute(x: int, y: int, y': int, z: int, z': int)
    ensures x * (y + y') + RADIX * (z + z') == (x * y + RADIX * z) + (x * y' + RADIX * z')
  {
  }

  lemma PeelOne(a: seq<Littlenum>, b: seq<Littlenum>, n: nat)
    requires a != [] && n > 0
    requires Columns(a, b, n - 1)
      == a[0] * Nat(Prefix(b, n - 1)) + RADIX * (if n == 1 then 0 else Columns(a[1..], b, n - 2))
    ensures Columns(a, b, n) == a[0] * Nat(Prefix(b, n)) + RADIX * Columns(a[1..], b, n - 1)
  {
    hide Nat, Prefix, RPow;
    PrefixStep(b, n - 1);
    var term := if n - 1 < |b| then b[n-1] else 0;
    ColumnAt(a, b, n, RPow(n - 1), term);
    Distribute(a[0], Nat(Prefix(b, n - 1)), term * RPow(n - 1),
               if n == 1 then 0 else Columns(a[1..], b, n - 2),
               if n == 1 then 0 else Column(a[1..], b, n - 2) * RPow(n - 2));
  }

  lemma ColumnAt(a: seq<Littlenum>, b: seq<Littlenum>, n: nat, p: nat, term: nat)
    requires a != [] && n > 0 && p == RPow(n - 1)
    requires Column(a, b, n - 1) == a[0] * term + if n == 1 then 0 else Column(a[1..], b, n - 2)
    ensures Column(a, b, n - 1) * p == a[0] * (term * p) + if n == 1 then 0 else RADIX * (Column(a[1..], b, n - 2) * RPow(n - 2))
  {
    var x := a[0];
    var c := if n == 1 then 0 else Column(a[1..], b, n - 2);
    assert (x * term + c) * p == x * (term * p) + c * p;
    if n > 1 {
      var q := RPow(n - 2);
      assert p == RADIX * q;
      assert c * (RADIX * q) == RADIX * (c * q);
    }
  }

  /** Enough columns make up the product. */
  lemma {:induction false} ColumnsAreProduct(a: seq<Littlenum>, b: seq<Littlenum>, n: nat)
    requires n + 1 >= |a| + |b|
    ensures Columns(a, b, n) == Nat(a) * Nat(b)
  {
    hide Prefix;
    if a == [] {
      NoColumns(b, n);
    } else {
      ColumnsPeel(a, b, n);
      if n == 0 {
        PrefixIsAll(b, 0);
      } else {
        ColumnsAreProduct(a[1..], b, n - 1);
        PrefixIsAll(b, n);
        MulOut(a[0], Nat(a[1..]), Nat(b));
      }
    }
  }

  lemma MulOut(x: int, y: int, z: int)
    ensures (x + RADIX * y) * z == x * z + RADIX * (y * z)
  {
  }

  lemma PrefixIsAll(b: seq<Littlenum>, n: nat)
    requires n >= |b|
    ensures Prefix(b, n) == b
  {
  }

  lemma {:induction false} NoColumns(b: seq<Littlenum>, n: nat)
    ensures Columns([], b, n) == 0
  {
    if n > 0 {
      NoColumns(b, n - 1);
    }
  }

  // ---------------------------------------------------------------- columns with 32-bit words

  /** The first product that the loop adds in column n, to a word that still holds the whole carry. */
  function FirstProduct(a: seq<Littlenum>, b: seq<Littlenum>, n: nat): nat {
    var i := if n < |b| then 0 else n - |b| + 1;
    if i < |a| && 0 <= n - i < |b| then (a[i] as int) * b[n - i] else 0
  }

  /** How often the 32-bit word wraps round in column n. Only the first addition can do that: every
      later one starts from a word that has just been masked. */
  function Wraps(a: seq<Littlenum>, b: seq<Littlenum>, n: nat): nat
    decreases n, 1
  {
    (CarryInto(a, b, n) + FirstProduct(a, b, n)) / WORD
  }

  /** The carry that column n starts from. */
  function CarryInto(a: seq<Littlenum>, b: seq<Littlenum>, n: nat): nat
    decreases n, 0
  {
    if n == 0 then 0 else Total(a, b, n - 1) / RADIX
  }

  /** What column n adds up to, less what its wraps have lost. */
  function Total(a: seq<Littlenum>, b: seq<Littlenum>, n: nat): nat
    decreases n, 2
  {
    FirstProductIsPart(a, b, n);
    CarryInto(a, b, n) + Column(a, b, n) - WORD * Wraps(a, b, n)
  }

  lemma {:induction false} FirstProductIsPart(a: seq<Littlenum>, b: seq<Littlenum>, n: nat)
    ensures FirstProduct(a, b, n) <= Column(a, b, n)
    decreases a
  {
    if a != [] && n > 0 && n >= |b| {
      FirstProductIsPart(a[1..], b, n - 1);
      if n - |b| + 1 < |a| {
        assert a[1..][n - |b|] == a[n - |b| + 1];
      }
    }
  }

  /** The value lost to wraps in the first n columns. */
  function Lost(a: seq<Littlenum>, b: seq<Littlenum>, n: nat): nat {
    if n == 0 then 0 else Lost(a, b, n - 1) + WORD * Wraps(a, b, n - 1) * RPow(n - 1)
  }

  /** The littlenums that the first n columns put out. */
  function Digits(a: seq<Littlenum>, b: seq<Littlenum>, n: nat): (s: seq<Littlenum>)
    ensures |s| == n
  {
    if n == 0 then [] else Digits(a, b, n - 1) + [Total(a, b, n - 1) % RADIX]
  }

  /** Nothing else is lost: littlenums, carry and wraps add up to the exact columns. */
  lemma {:induction false} ColumnsConserved(a: seq<Littlenum>, b: seq<Littlenum>, n: nat)
    ensures Nat(Digits(a, b, n)) + CarryInto(a, b, n) * RPow(n) + Lost(a, b, n) == Columns(a, b, n)
  {
    if n > 0 {
      hide Nat, Column, Wraps;
      ColumnsConserved(a, b, n - 1);
      var total := Total(a, b, n - 1);
      NatSnoc(Digits(a, b, n - 1), total % RADIX);
      Collect(total, RPow(n - 1), CarryInto(a, b, n - 1), Column(a, b, n - 1), WORD * Wraps(a, b, n - 1));
    }
  }

  lemma Collect(total: nat, p: nat, carry: nat, column: nat, lost: nat)
    requires total == carry + column - lost
    ensures p * (total % RADIX) + total / RADIX * (RADIX * p) == carry * p + column * p - lost * p
  {
    var q, r := total / RADIX, total % RADIX;
    assert total == RADIX * q + r;
    assert p * r + q * (RADIX * p) == (RADIX * q + r) * p;
    assert (carry + column - lost) * p == carry * p + column * p - lost * p;
  }

  /** What all the wraps of a multiplication lose. */
  function AllLost(a: seq<Littlenum>, b: seq<Littlenum>): nat
    requires |a| + |b| > 0
  {
    Lost(a, b, |a| + |b| - 1)
  }

  /** The computed product, with the last carry as its highest littlenum: exact, but for the wraps. */
  lemma ComputedProduct(a: seq<Littlenum>, b: seq<Littlenum>, n: nat)
    requires n + 1 == |a| + |b|
    ensures CarryInto(a, b, n) < RADIX
    ensures Nat(Digits(a, b, n) + [CarryInto(a, b, n)]) == Nat(a) * Nat(b) - AllLost(a, b)
  {
    hide Digits, CarryInto, Lost, Columns, Nat;
    ColumnsConserved(a, b, n);
    ColumnsAreProduct(a, b, n);
    ProductBound(a, b);
    var carry := CarryInto(a, b, n);
    if carry >= RADIX {
      MulMonotone(RADIX, carry, RPow(n));
      RPowStep(n);
    }
    NatSnoc(Digits(a, b, n), carry);
  }

  lemma ProductBound(a: seq<Littlenum>, b: seq<Littlenum>)
    ensures Nat(a) * Nat(b) < RPow(|a| + |b|)
  {
    NatBound(a);
    NatBound(b);
    RPowAdd(|a|, |b|);
    MulMonotone(Nat(a), RPow(|a|), Nat(b));
    MulStrict(RPow(|a|), Nat(b), RPow(|b|));
  }

  lemma MulStrict(x: nat, y: nat, z: nat)
    requires x > 0 && y < z
    ensures x * y < x * z
  {
    assert x * (z - y) > 0;
  }

  // ---------------------------------------------------------------- fitting the product's buffer

  /** How many low littlenums are zero. */
  function LowZeros(s: seq<Littlenum>): (k: nat)
    ensures k <= |s| && AllZero(s[..k]) && (k < |s| ==> s[k] != 0)
  {
    if s == [] || s[0] != 0 then 0 else
      var k := LowZeros(s[1..]);
      assert s[..k+1] == [s[0]] + s[1..][..k];
      k + 1
  }

  /** A product: its littlenums, and how many places they have been shifted down. */
  datatype Product = Product(littlenums: seq<Littlenum>, shift: nat)

  /** How many low columns are dropped: as many as the buffer is too short for, and after that
      low zeros as long as nothing else has been seen. */
  function Dropped(digits: seq<Littlenum>, capacity: nat): (d: nat)
    requires capacity > 0
    ensures d <= |digits| && |digits| - d <= capacity
  {
    DroppedAfter(digits, TooShort(|digits|, capacity))
  }

  /** By how many places a buffer is too short. */
  function TooShort(n: nat, capacity: nat): nat {
    if n > capacity then n - capacity else 0
  }

  function DroppedAfter(digits: seq<Littlenum>, short: nat): nat {
    if LowZeros(digits) < short then short else LowZeros(digits)
  }

  lemma {:induction false} LowZerosSnoc(s: seq<Littlenum>, x: Littlenum)
    ensures LowZeros(s + [x]) == if AllZero(s) && x == 0 then |s| + 1 else LowZeros(s)
  {
    if s != [] {
      assert (s + [x])[1..] == s[1..] + [x];
      assert s == [s[0]] + s[1..];
      LowZerosSnoc(s[1..], x);
    } else {
      assert [x][1..] == [];
    }
  }

  lemma {:induction false} AllLowZeros(s: seq<Littlenum>)
    requires AllZero(s)
    ensures LowZeros(s) == |s|
  {
    if s != [] {
      AllLowZeros(s[1..]);
    }
  }

  /** Is there a place for the last carry, as far as the code can tell? */
  predicate RoomForCarry(digits: seq<Littlenum>, capacity: nat)
    requires capacity > 0
  {
    capacity - |digits| + (Dropped(digits, capacity) - TooShort(|digits|, capacity)) > 0
  }

  /** Littlenums and a last carry, made to fit a buffer of the given capacity. */
  function Fit(digits: seq<Littlenum>, carry: Littlenum, capacity: nat): (p: Product)
    requires capacity > 0
    ensures |p.littlenums| <= capacity
  {
    var d := Dropped(digits, capacity);
    if carry == 0 then Product(digits[d..], d)
    else if RoomForCarry(digits, capacity) then Product(digits[d..] + [carry], d)
    else Product((digits[d..] + [carry])[1..], d + 1)
  }

  /** Fitting is shifting down: dividing by the radix once for every place, and rounding down. */
  lemma FitValue(digits: seq<Littlenum>, carry: Littlenum, capacity: nat)
    requires capacity > 0
    ensures var p := Fit(digits, carry, capacity);
      Nat(p.littlenums) == Nat(digits + [carry]) / RPow(p.shift)
  {
    hide LowZeros, RoomForCarry, Dropped, Nat, RPow;
    var d := Dropped(digits, capacity);
    var all := digits + [carry];
    assert all[d..] == digits[d..] + [carry];
    assert all[d + 1..] == (digits[d..] + [carry])[1..];
    if carry == 0 {
      NatTopZero(digits[d..]);
    }
    NatDrop(all, Fit(digits, carry, capacity).shift);
  }

  /** When the buffer is long enough for all columns and the carry, only zeros are shifted out. */
  lemma FitExact(digits: seq<Littlenum>, carry: Littlenum, capacity: nat)
    requires capacity > |digits|
    ensures var p := Fit(digits, carry, capacity);
      RPow(p.shift) * Nat(p.littlenums) == Nat(digits + [carry])
  {
    hide LowZeros, Nat, RPow;
    var d := Dropped(digits, capacity);
    var p := Fit(digits, carry, capacity);
    assert p.shift == d && p.littlenums == if carry == 0 then digits[d..] else digits[d..] + [carry];
    ShiftExact(digits, carry, d);
    if carry == 0 {
      NatTopZero(digits[d..]);
    }
  }

  lemma ShiftExact(digits: seq<Littlenum>, carry: Littlenum, d: nat)
    requires d <= LowZeros(digits)
    ensures RPow(d) * Nat(digits[d..] + [carry]) == Nat(digits + [carry])
  {
    hide LowZeros, Nat, RPow;
    ZerosOnly(digits, d);
    var rest := digits[d..] + [carry];
    assert digits + [carry] == digits[..d] + rest;
    NatConcat(digits[..d], rest);
  }

  lemma ZerosOnly(digits: seq<Littlenum>, d: nat)
    requires d <= LowZeros(digits)
    ensures Nat(digits[..d]) == 0
  {
    NatZero(digits[..d]);
  }

  /** What flonum_multip leaves in a buffer of the given capacity. */
  function ProductOf(a: seq<Littlenum>, b: seq<Littlenum>, capacity: nat): (p: Product)
    requires capacity > 0
    ensures |p.littlenums| <= capacity
  {
    if |a| + |b| == 0 then Product([], 0) else
      var n := |a| + |b| - 1;
      ComputedProduct(a, b, n);
      Fit(Digits(a, b, n), CarryInto(a, b, n), capacity)
  }

  /** The main result: what is left in the buffer is the exact product, less what wraps have lost,
      divided by the radix as often as the exponent has been raised, and rounded down. */
  lemma ProductValue(a: seq<Littlenum>, b: seq<Littlenum>, capacity: nat)
    requires capacity > 0 && |a| + |b| > 0
    ensures var p := ProductOf(a, b, capacity);
      Nat(p.littlenums) == (Nat(a) * Nat(b) - AllLost(a, b)) / RPow(p.shift)
  {
    hide Digits, CarryInto, AllLost, Nat, RPow, Fit;
    var n := |a| + |b| - 1;
    ComputedProduct(a, b, n);
    FitValue(Digits(a, b, n), CarryInto(a, b, n), capacity);
  }

  /** In a buffer as long as both factors together the product is exact just when no word wraps. */
  lemma ExactIffNoWrap(a: seq<Littlenum>, b: seq<Littlenum>, capacity: nat)
    requires |a| + |b| > 0 && capacity >= |a| + |b|
    ensures var p := ProductOf(a, b, capacity);
      (forall n :: 0 <= n < |a| + |b| - 1 ==> Wraps(a, b, n) == 0)
      <==> RPow(p.shift) * Nat(p.littlenums) == Nat(a) * Nat(b)
  {
    hide Digits, CarryInto, Lost, Nat, RPow, Fit, Wraps;
    var n := |a| + |b| - 1;
    ComputedProduct(a, b, n);
    FitExact(Digits(a, b, n), CarryInto(a, b, n), capacity);
    LostIffWraps(a, b, n);
  }

  lemma {:induction false} LostIffWraps(a: seq<Littlenum>, b: seq<Littlenum>, n: nat)
    ensures Lost(a, b, n) == 0 <==> forall k :: 0 <= k < n ==> Wraps(a, b, k) == 0
  {
    hide Wraps, RPow;
    if n > 0 {
      LostIffWraps(a, b, n - 1);
      LossIsReal(Wraps(a, b, n - 1), RPow(n - 1));
      assert Lost(a, b, n) == 0 <==> Lost(a, b, n - 1) == 0 && Wraps(a, b, n - 1) == 0;
    }
  }

  lemma LossIsReal(w: nat, p: nat)
    requires p >= 1
    ensures WORD * w * p >= 0 && (WORD * w * p == 0 <==> w == 0)
  {
    if w > 0 {
      MulAtLeast(p, WORD * w);
    }
  }

  // ---------------------------------------------------------------- when words wrap

  /** The most terms that a column can have. */
  function Terms(a: seq<Littlenum>, b: seq<Littlenum>): nat {
    if |a| < |b| then |a| else |b|
  }

  const TOP := (RADIX - 1) * (RADIX - 1)   // the largest product of two littlenums

  lemma TopProduct(x: Littlenum, y: Littlenum)
    ensures x * y <= TOP
  {
    MulMonotone(x, RADIX - 1, y);
    MulMonotone(y, RADIX - 1, RADIX - 1);
  }

  lemma {:induction false} ColumnBound(a: seq<Littlenum>, b: seq<Littlenum>, n: nat)
    ensures Column(a, b, n) <= |a| * TOP
    ensures Column(a, b, n) <= (if n + 1 < |b| then n + 1 else |b|) * TOP
    decreases a
  {
    FirstOfColumn(a, b, n);
    hide Column;
    if a != [] && n > 0 {
      ColumnBound(a[1..], b, n - 1);
    }
  }

  lemma FirstOfColumn(a: seq<Littlenum>, b: seq<Littlenum>, n: nat)
    ensures a == [] ==> Column(a, b, n) == 0
    ensures a != [] ==>
      Column(a, b, n) <= (if n < |b| then TOP else 0) + (if n == 0 then 0 else Column(a[1..], b, n - 1))
  {
    if a != [] && n < |b| {
      TopProduct(a[0], b[n]);
    }
  }

  /** The carry stays below one littlenum for every term. */
  lemma {:induction false} CarryBound(a: seq<Littlenum>, b: seq<Littlenum>, n: nat)
    ensures CarryInto(a, b, n) <= Terms(a, b) * (RADIX - 1)
  {
    if n > 0 {
      hide Wraps, Column;
      CarryBound(a, b, n - 1);
      ColumnBound(a, b, n - 1);
      var m := Terms(a, b);
      BoundedSum(CarryInto(a, b, n - 1), Column(a, b, n - 1), m, |a|, if n < |b| then n else |b|);
      assert Total(a, b, n - 1) <= CarryInto(a, b, n - 1) + Column(a, b, n - 1);
    }
  }

  lemma BoundedSum(carry: nat, column: nat, m: nat, x: nat, y: nat)
    requires carry <= m * (RADIX - 1) && column <= x * TOP && column <= y * TOP && (m >= x || m >= y)
    ensures (carry + column) / RADIX <= m * (RADIX - 1)
    ensures forall total: nat :: total <= carry + column ==> total / RADIX <= m * (RADIX - 1)
  {
  }

  /** With at most two littlenums in the shorter factor no word ever wraps. */
  lemma ShortFactorsNeverWrap(a: seq<Littlenum>, b: seq<Littlenum>, n: nat)
    requires Terms(a, b) <= 2
    ensures Wraps(a, b, n) == 0
  {
    CarryBound(a, b, n);
    var i := if n < |b| then 0 else n - |b| + 1;
    if i < |a| && 0 <= n - i < |b| {
      TopProduct(a[i], b[n - i]);
    }
  }

  predicate AllOnes(s: seq<Littlenum>) {
    forall i :: 0 <= i < |s| ==> s[i] == RADIX - 1
  }

  /** The largest factors of three and more littlenums wrap a word. */
  lemma WrapExample(a: seq<Littlenum>, b: seq<Littlenum>)
    requires |a| >= 3 && |b| >= 3 && AllOnes(a) && AllOnes(b)
    ensures Wraps(a, b, 3) == 1
    ensures AllLost(a, b) > 0
  {
    ExampleColumns(a, b);
    ExampleCarry(a, b);
    ExampleWrap(a, b);
    hide *;
    WrapLoses(a, b, 3);
  }

  lemma WrapLoses(a: seq<Littlenum>, b: seq<Littlenum>, k: nat)
    requires k + 1 < |a| + |b| && Wraps(a, b, k) > 0
    ensures AllLost(a, b) > 0
  {
    hide Wraps, Lost;
    LostIffWraps(a, b, |a| + |b| - 1);
  }

  lemma ExampleWrap(a: seq<Littlenum>, b: seq<Littlenum>)
    requires |a| >= 3 && |b| >= 3 && AllOnes(a) && AllOnes(b) && CarryInto(a, b, 3) == 3 * RADIX - 4
    ensures Wraps(a, b, 3) == 1
  {
    hide CarryInto;
  }

  lemma ExampleColumns(a: seq<Littlenum>, b: seq<Littlenum>)
    requires |a| >= 3 && |b| >= 3 && AllOnes(a) && AllOnes(b)
    ensures Column(a, b, 0) == TOP
    ensures Column(a, b, 1) == 2 * TOP
    ensures Column(a, b, 2) == 3 * TOP
  {
    assert Column(a[1..], b, 0) == TOP && Column(a[1..][1..], b, 0) == TOP;
    assert Column(a[1..], b, 1) == 2 * TOP;
  }

  lemma ExampleCarry(a: seq<Littlenum>, b: seq<Littlenum>)
    requires |a| >= 3 && |b| >= 3 && AllOnes(a) && AllOnes(b)
    requires Column(a, b, 0) == TOP && Column(a, b, 1) == 2 * TOP && Column(a, b, 2) == 3 * TOP
    ensures CarryInto(a, b, 3) == 3 * RADIX - 4
  {
    hide Column;
    assert Wraps(a, b, 0) == 0;
    assert CarryInto(a, b, 1) == RADIX - 2;
    assert Wraps(a, b, 1) == 0;
    assert CarryInto(a, b, 2) == 2 * RADIX - 3;
    assert Wraps(a, b, 2) == 0;
  }

  // ---------------------------------------------------------------- normal form

  /** The highest littlenum of a flonum is not zero. */
  predicate Normal(s: seq<Littlenum>) {
    s != [] && s[|s|-1] != 0
  }

  lemma FitNormal(digits: seq<Littlenum>, carry: Littlenum, capacity: nat)
    requires capacity > 0 && digits != [] && (carry == 0 ==> Normal(digits))
    ensures var s := Fit(digits, carry, capacity).littlenums;
      && (s == [] || Normal(s))
      && (s == [] <==> AllZero(digits) && |digits| >= 2 * capacity)
  {
    assert LowZeros(digits) == |digits| ==> digits[..|digits|] == digits;
    assert AllZero(digits) ==> LowZeros(digits) == |digits|;
  }
}
