/** Flonums in memory: flonum_multip (cctools/as/flonum-mult.c) and flonum_copy
    (cctools/as/flonum-copy.c). */
module Flonum {
  import opened Arith
  import opened Bignum
  import opened Multiply

  /** A flonum: littlenums from low to high, of which those up to the leader are in use. */
  class Flonum {
    const low: array<Littlenum>
    var leader: int       // the place of the highest littlenum in use; -1 for 0.0
    var exponent: int     // the place value of low[0], to the base RADIX
    var sign: char        // '+' or '-'; '\0', 'P' and 'N' stand for NaN and the infinities

    ghost predicate Valid()
      reads this
    {
      low.Length > 0 && -1 <= leader < low.Length
    }

    function Littlenums(): seq<Littlenum>
      requires Valid()
      reads this, low
    {
      low[..leader + 1]
    }

    constructor (capacity: nat)
      requires capacity > 0
      ensures Valid() && fresh(low) && low.Length == capacity
      ensures leader == -1 && exponent == 0 && sign == '+'
      ensures forall k :: 0 <= k < capacity ==> low[k] == 0
    {
      low := new Littlenum[capacity](_ => 0);
      leader, exponent, sign := -1, 0, '+';
    }
  }

  /** The terms of column n from the i-th on. */
  function ColumnRest(a: seq<Littlenum>, b: seq<Littlenum>, n: nat, i: nat): nat {
    if i > n || i >= |a| then 0 else Column(a[i..], b, n - i)
  }

  lemma ColumnRestStep(a: seq<Littlenum>, b: seq<Littlenum>, n: nat, i: nat)
    requires i <= n
    ensures ColumnRest(a, b, n, i)
      == (if i < |a| && n - i < |b| then (a[i] as int) * b[n - i] else 0) + ColumnRest(a, b, n, i + 1)
  {
    if i < |a| {
      assert a[i..][0] == a[i] && a[i..][1..] == a[i+1..];
      if i + 1 == |a| {
        assert a[i+1..] == [];
      }
    }
  }

  lemma {:induction false} ColumnRestBefore(a: seq<Littlenum>, b: seq<Littlenum>, n: nat, i: nat)
    requires i <= n + 1 && (i > 0 ==> n - (i - 1) >= |b|)
    ensures ColumnRest(a, b, n, i) == Column(a, b, n)
  {
    if i > 0 {
      ColumnRestBefore(a, b, n, i - 1);
      ColumnRestStep(a, b, n, i - 1);
    } else {
      assert a[0..] == a;
    }
  }

  /** Adding a product to a word and moving what exceeds a littlenum to the carry. */
  lemma AddTerm(work: nat, carry: nat, product: nat, rest: nat, sum: nat)
    requires work + RADIX * carry + product + rest == sum
    requires work + product < WORD
    ensures var w := (work + product) % WORD;
      w % RADIX + RADIX * (carry + w / RADIX) + rest == sum
  {
  }

  lemma AddFirstTerm(carryIn: nat, product: nat, rest: nat, sum: nat)
    requires carryIn + product + rest - WORD * ((carryIn + product) / WORD) == sum
    ensures var w := (carryIn + product) % WORD;
      w % RADIX + RADIX * (w / RADIX) + rest == sum
  {
  }

  /** The inner loop: one column, with the carry of the column before. */
  method AddColumn(a: Flonum, b: Flonum, n: nat, carryIn: nat) returns (work: nat, carry: nat)
    requires a.Valid() && b.Valid() && n + 1 < |a.Littlenums()| + |b.Littlenums()|
    requires carryIn == CarryInto(a.Littlenums(), b.Littlenums(), n)
    ensures work == Total(a.Littlenums(), b.Littlenums(), n) % RADIX
    ensures carry == CarryInto(a.Littlenums(), b.Littlenums(), n + 1)
  {
    hide ColumnRest, Column, CarryInto;
    ghost var x, y := a.Littlenums(), b.Littlenums();
    ghost var first := if n < |y| then 0 else n - |y| + 1;
    work, carry := carryIn, 0;
    var i := 0;
    while i <= n
      invariant i <= n + 1
      invariant i <= first || |x| == 0 ==> work == carryIn && carry == 0
      invariant i > first && |x| > 0 ==> work < RADIX && work + RADIX * carry + ColumnRest(x, y, n, i) == Total(x, y, n)
    {
      var j := n - i;
      ColumnRestStep(x, y, n, i);
      if i <= a.leader && j <= b.leader && j >= 0 {
        var product := a.low[i] as int * b.low[j];
        TopProduct(a.low[i], b.low[j]);
        if i == first {
          ColumnRestBefore(x, y, n, i);
          AddFirstTerm(carryIn, product, ColumnRest(x, y, n, i + 1), Total(x, y, n));
        } else {
          AddTerm(work, carry, product, ColumnRest(x, y, n, i + 1), Total(x, y, n));
        }
        work := (work + product) % WORD;
        carry := carry + work / RADIX;
        work := work % RADIX;
      }
      i := i + 1;
    }
    ColumnDone(x, y, n, work, carry, first);
  }

  lemma ColumnDone(x: seq<Littlenum>, y: seq<Littlenum>, n: nat, work: nat, carry: nat, first: nat)
    requires n + 1 < |x| + |y| && first == if n < |y| then 0 else n - |y| + 1
    requires n + 1 <= first || |x| == 0 ==> work == CarryInto(x, y, n) && carry == 0
    requires n + 1 > first && |x| > 0 ==> work < RADIX && work + RADIX * carry + ColumnRest(x, y, n, n + 1) == Total(x, y, n)
    ensures work == Total(x, y, n) % RADIX && carry == CarryInto(x, y, n + 1)
  {
    if x == [] || y == [] {
      NothingToCarry(x, y, n);
      NothingToCarry(x, y, n + 1);
    } else {
      DivModUnique(Total(x, y, n), RADIX, carry, work);
    }
  }

  /** With a factor of zero littlenums there is nothing to add up. */
  lemma {:induction false} NothingToCarry(x: seq<Littlenum>, y: seq<Littlenum>, n: nat)
    requires x == [] || y == []
    ensures CarryInto(x, y, n) == 0 && Total(x, y, n) == 0
  {
    NothingInColumn(x, y, n);
    if n > 0 {
      NothingToCarry(x, y, n - 1);
    }
  }

  lemma {:induction false} NothingInColumn(x: seq<Littlenum>, y: seq<Littlenum>, n: nat)
    requires x == [] || y == []
    ensures Column(x, y, n) == 0
  {
    if x != [] && n > 0 {
      NothingInColumn(x[1..], y, n - 1);
    }
  }

  /** What the main loop has done when it has dealt with the given littlenums: the place it writes to,
      and how many places have been skipped on top of those that the buffer is too short for. */
  ghost predicate Stored(digits: seq<Littlenum>, short: nat, place: int, skipped: nat, buffer: seq<Littlenum>) {
    && place == |digits| - short - skipped <= |buffer|
    && (if |digits| < short then skipped == 0 else
        && place >= 0 && short + skipped == DroppedAfter(digits, short)
        && buffer[..place] == digits[short + skipped..])
  }

  lemma StoredNext(digits: seq<Littlenum>, short: nat, place: int, skipped: nat, buffer: seq<Littlenum>,
                   work: Littlenum, buffer': seq<Littlenum>)
    requires Stored(digits, short, place, skipped, buffer) && |buffer'| == |buffer|
    requires place < |buffer|
    requires buffer' == if place >= 0 && !(AllZero(digits) && work == 0) then buffer[place := work] else buffer
    ensures if AllZero(digits) && work == 0 && place >= 0
      then Stored(digits + [work], short, place, skipped + 1, buffer')
      else Stored(digits + [work], short, place + 1, skipped, buffer')
  {
    LowZerosSnoc(digits, work);
    if AllZero(digits) {
      AllLowZeros(digits);
    }
  }

  /** Makes room for the last carry by dropping the lowest littlenum. */
  method ShiftInCarry(product: Flonum, place: int, carry: Littlenum)
    requires -1 <= place < product.low.Length
    modifies product.low
    ensures product.low[..place + 1] == (old(product.low[..place + 1]) + [carry])[1..]
  {
    var q := place;
    var c := carry;
    while q >= 0
      invariant -1 <= q <= place
      invariant forall k :: q < k < place ==> product.low[k] == old(product.low[k + 1])
      invariant q < place ==> product.low[place] == carry
      invariant forall k :: 0 <= k <= q ==> product.low[k] == old(product.low[k])
      invariant c == if q == place then carry else old(product.low[q + 1])
      decreases q
    {
      var work := product.low[q];
      product.low[q] := c;
      c := work;
      q := q - 1;
    }
  }

  /** The loops of flonum_multip. */
  method MultiplyLoops(a: Flonum, b: Flonum, product: Flonum)
    requires a.Valid() && b.Valid() && product.Valid()
    requires product != a && product != b && product.low != a.low && product.low != b.low
    modifies product`leader, product`exponent, product.low
    ensures var p := ProductOf(a.Littlenums(), b.Littlenums(), product.low.Length);
      && product.Valid() && product.Littlenums() == p.littlenums
      && product.exponent == a.exponent + b.exponent + p.shift
  {
    hide Digits, CarryInto, Column, ProductOf, DroppedAfter, LowZeros, Total, Stored, AllZero;
    ghost var x, y := a.Littlenums(), b.Littlenums();
    var exponent := a.exponent + b.exponent;
    var sizeOfProduct := product.low.Length - 1;
    var sizeOfSum := a.leader + b.leader;
    var extra := sizeOfProduct - sizeOfSum;
    var place := 0;
    if extra < 0 {
      place := extra;
      exponent := exponent - extra;
    }
    var carry := 0;
    var significant := false;
    var n := 0;
    ghost var digits: seq<Littlenum> := [];
    ghost var short := if extra < 0 then -extra else 0;
    ghost var skipped := 0;
    Start(x, y, short);
    while n <= sizeOfSum
      invariant 0 <= n && (n <= sizeOfSum + 1 || n == 0)
      invariant digits == Digits(x, y, n) && carry == CarryInto(x, y, n)
      invariant significant <==> !AllZero(digits)
      invariant Stored(digits, short, place, skipped, product.low[..])
      invariant extra == sizeOfProduct - sizeOfSum + skipped
      invariant exponent == a.exponent + b.exponent + short + skipped
      decreases sizeOfSum - n
    {
      var work;
      work, carry := AddColumn(a, b, n, carry);
      ghost var before := product.low[..];
      NextDigit(x, y, n);
      AllZeroSnoc(digits, work);
      PlaceInBuffer(digits, short, place, skipped, before, sizeOfSum);
      significant := significant || work != 0;
      if significant || place < 0 {
        if place >= 0 {
          product.low[place] := work;
        }
        StoredNext(digits, short, place, skipped, before, work, product.low[..]);
        place := place + 1;
      } else {
        StoredNext(digits, short, place, skipped, before, work, product.low[..]);
        extra := extra + 1;
        exponent := exponent + 1;
        skipped := skipped + 1;
      }
      digits := digits + [work];
      n := n + 1;
    }
    Finish(x, y, digits, carry, short, place, skipped, product.low[..]);
    place, exponent := StoreCarry(product, place, carry, extra, exponent);
    product.leader := place;
    product.exponent := exponent;
  }

  /** What happens to the last carry; the result is the place of the leader. */
  method StoreCarry(product: Flonum, from: int, carry: Littlenum, extra: int, exponent: int) returns (place: int, exponent': int)
    requires 0 <= from <= product.low.Length && (carry != 0 && extra > 0 ==> from < product.low.Length)
    modifies product.low
    ensures -1 <= place < product.low.Length
    ensures exponent' == if carry != 0 && extra <= 0 then exponent + 1 else exponent
    ensures product.low[..place + 1] ==
      if carry == 0 then old(product.low[..from])
      else if extra > 0 then old(product.low[..from]) + [carry]
      else (old(product.low[..from]) + [carry])[1..]
  {
    place, exponent' := from, exponent;
    if carry != 0 {
      if extra > 0 {
        product.low[place] := carry;
      } else {
        exponent' := exponent + 1;
        place := place - 1;
        ShiftInCarry(product, place, carry);
      }
    } else {
      place := place - 1;
    }
  }

  lemma Start(x: seq<Littlenum>, y: seq<Littlenum>, short: nat)
    ensures Digits(x, y, 0) == [] && CarryInto(x, y, 0) == 0
    ensures AllZero([])
    ensures forall place: int, buffer: seq<Littlenum> :: place == 0 - short ==> Stored([], short, place, 0, buffer)
  {
  }

  lemma NextDigit(x: seq<Littlenum>, y: seq<Littlenum>, n: nat)
    ensures Digits(x, y, n + 1) == Digits(x, y, n) + [Total(x, y, n) % RADIX]
  {
  }

  lemma AllZeroSnoc(digits: seq<Littlenum>, work: Littlenum)
    ensures AllZero(digits + [work]) <==> AllZero(digits) && work == 0
  {
    if AllZero(digits + [work]) {
      assert digits == (digits + [work])[..|digits|] && work == (digits + [work])[|digits|];
    }
  }

  lemma PlaceInBuffer(digits: seq<Littlenum>, short: nat, place: int, skipped: nat, buffer: seq<Littlenum>, sizeOfSum: int)
    requires Stored(digits, short, place, skipped, buffer) && |digits| <= sizeOfSum
    requires sizeOfSum - short <= |buffer| - 1
    ensures place < |buffer|
  {
  }

  /** When all columns are done, what is left to do with the last carry. */
  lemma Finish(x: seq<Littlenum>, y: seq<Littlenum>, digits: seq<Littlenum>, carry: nat, short: nat,
               place: int, skipped: nat, buffer: seq<Littlenum>)
    requires buffer != [] && Stored(digits, short, place, skipped, buffer)
    requires |x| + |y| <= 1 ==> digits == [] && carry == 0
    requires |x| + |y| > 1 ==> digits == Digits(x, y, |x| + |y| - 1) && carry == CarryInto(x, y, |x| + |y| - 1)
    requires short == if |x| + |y| - 2 > |buffer| - 1 then |x| + |y| - 2 - (|buffer| - 1) else 0
    ensures carry < RADIX && 0 <= place <= |buffer|
    ensures var p := ProductOf(x, y, |buffer|);
      if carry == 0 then p == Product(buffer[..place], short + skipped)
      else if |buffer| - |digits| + skipped > 0 then place < |buffer| && p == Product(buffer[..place] + [carry], short + skipped)
      else p == Product((buffer[..place] + [carry])[1..], short + skipped + 1)
  {
    hide Fit, ProductOf, Stored, Digits, CarryInto, Nat, AllLost, LowZeros;
    ProductIsFit(x, y, digits, carry, |buffer|);
    FinishFit(digits, carry, short, place, skipped, buffer);
  }

  lemma ProductIsFit(x: seq<Littlenum>, y: seq<Littlenum>, digits: seq<Littlenum>, carry: nat, capacity: nat)
    requires capacity > 0
    requires |x| + |y| <= 1 ==> digits == [] && carry == 0
    requires |x| + |y| > 1 ==> digits == Digits(x, y, |x| + |y| - 1) && carry == CarryInto(x, y, |x| + |y| - 1)
    ensures carry < RADIX && ProductOf(x, y, capacity) == Fit(digits, carry, capacity)
  {
    hide Nat, AllLost;
    if |x| + |y| > 0 {
      ComputedProduct(x, y, |x| + |y| - 1);
    }
    if |x| + |y| <= 1 {
      assert Fit([], 0, capacity) == Product([], 0);
    }
  }

  lemma FinishFit(digits: seq<Littlenum>, carry: Littlenum, short: nat, place: int, skipped: nat, buffer: seq<Littlenum>)
    requires buffer != [] && Stored(digits, short, place, skipped, buffer)
    requires short == TooShort(|digits|, |buffer|)
    ensures 0 <= place <= |buffer|
    ensures var p := Fit(digits, carry, |buffer|);
      if carry == 0 then p == Product(buffer[..place], short + skipped)
      else if |buffer| - |digits| + skipped > 0 then place < |buffer| && p == Product(buffer[..place] + [carry], short + skipped)
      else p == Product((buffer[..place] + [carry])[1..], short + skipped + 1)
  {
  }

  /** flonum_multip: the product of a and b, as far as it fits. */
  method FlonumMultip(a: Flonum, b: Flonum, product: Flonum)
    requires a.Valid() && b.Valid() && product.Valid()
    requires product != a && product != b && product.low != a.low && product.low != b.low
    modifies product, product.low
    ensures var signed := a.sign in {'+', '-'} && b.sign in {'+', '-'};
      if !signed then
        product.sign == '\0' && product.leader == old(product.leader) && product.exponent == old(product.exponent)
        && product.low[..] == old(product.low[..])
      else
        var p := ProductOf(a.Littlenums(), b.Littlenums(), product.low.Length);
        && product.Valid() && product.sign == (if a.sign == b.sign then '+' else '-')
        && product.Littlenums() == p.littlenums && product.exponent == a.exponent + b.exponent + p.shift
  {
    if (a.sign != '-' && a.sign != '+') || (b.sign != '-' && b.sign != '+') {
      product.sign := '\0';
      return;
    }
    product.sign := if a.sign == b.sign then '+' else '-';
    MultiplyLoops(a, b, product);
  }

  // ---------------------------------------------------------------- copying

  /** What a copy keeps in a buffer of the given capacity: the highest littlenums. */
  function CopyOf(s: seq<Littlenum>, capacity: nat): (p: Product)
    ensures |p.littlenums| <= capacity
  {
    if |s| <= capacity then Product(s, 0) else Product(s[|s| - capacity..], |s| - capacity)
  }

  /** A copy is the number rounded down to the places that fit, and keeps the normal form. */
  lemma CopyValue(s: seq<Littlenum>, capacity: nat)
    requires capacity > 0
    ensures var p := CopyOf(s, capacity);
      && Nat(p.littlenums) == Nat(s) / RPow(p.shift)
      && (Normal(s) ==> Normal(p.littlenums))
  {
    var k := CopyOf(s, capacity).shift;
    NatDrop(s, k);
    assert k == 0 ==> s[k..] == s;
  }

  /** Littlenums with their first so many bytes zeroed, on a host with the low byte first. */
  function ZeroBytes(s: seq<Littlenum>, bytes: nat): (t: seq<Littlenum>)
    ensures |t| == |s|
  {
    if s == [] || bytes == 0 then s
    else if bytes == 1 then [s[0] - s[0] % 256] + s[1..]
    else [0] + ZeroBytes(s[1..], bytes - 2)
  }

  method Memset(low: array<Littlenum>, from: nat, bytes: nat)
    requires from + bytes <= low.Length
    modifies low
    ensures low[..from] == old(low[..from]) && low[from..] == ZeroBytes(old(low[from..]), bytes)
    decreases bytes
  {
    if bytes == 1 {
      low[from] := low[from] - low[from] % 256;
    } else if bytes > 1 {
      low[from] := 0;
      Memset(low, from + 1, bytes - 2);
      assert low[..from] == low[..from + 1][..from];
      assert low[from..] == [low[from]] + low[from + 1..];
    }
  }

  /** flonum_copy. The zeroing of unused high littlenums counts bytes where littlenums were meant,
      and so clears only half of them; no value depends on that. */
  method FlonumCopy(source: Flonum, target: Flonum)
    requires source.Valid() && target.Valid() && source != target && source.low != target.low
    modifies target, target.low
    ensures target.Valid() && target.sign == source.sign
    ensures source.leader == -1 ==>
      target.leader == -1 && target.exponent == old(target.exponent) && target.low[..] == old(target.low[..])
    ensures source.leader != -1 ==>
      var p := CopyOf(source.Littlenums(), target.low.Length);
      var used := |p.littlenums|;
      && target.Littlenums() == p.littlenums && target.exponent == source.exponent + p.shift
      && target.low[used..] == ZeroBytes(old(target.low[used..]), target.low.Length - used)
  {
    hide ZeroBytes;
    target.sign := source.sign;
    var inLength := source.leader;
    if inLength < 0 {
      target.leader := -1;
    } else {
      var outLength := target.low.Length - 1;
      if inLength <= outLength {
        Memset(target.low, inLength + 1, outLength - inLength);
        CopyLow(source.low, 0, target.low, inLength + 1);
        target.exponent := source.exponent;
        target.leader := source.leader;
      } else {
        var shorten := inLength - outLength;
        CopyLow(source.low, shorten, target.low, outLength + 1);
        target.leader := outLength;
        target.exponent := source.exponent + shorten;
      }
    }
  }

  method CopyLow(source: array<Littlenum>, from: nat, target: array<Littlenum>, n: nat)
    requires source != target && from + n <= source.Length && n <= target.Length
    modifies target
    ensures target[..n] == source[from..from + n] && target[n..] == old(target[n..])
  {
    for k := 0 to n
      invariant forall m :: 0 <= m < k ==> target[m] == source[from + m]
      invariant forall m :: n <= m < target.Length ==> target[m] == old(target[m])
    {
      target[k] := source[from + k];
    }
  }
}
