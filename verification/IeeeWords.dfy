/** gen_to_words (cctools/as/atof-ieee.c): a flonum becomes the words of a single or double. */
module IeeeWords {
  import opened Arith
  import opened Bignum
  import opened BitReader
  import opened Encoding
  import opened Ieee754
  import opened Words
  import F = Flonum

  const MAX_PRECISION := 6      // the words that every caller has room for

  predicate Supported(precision: nat, exponentBits: nat) {
    (precision == 2 && exponentBits == 8) || (precision == 4 && exponentBits == 11)
  }

  function FormatOf(precision: nat, exponentBits: nat): (f: Format)
    requires Supported(precision, exponentBits)
    ensures IsFOrD(f)
  {
    Format(16 * precision - 1 - exponentBits, exponentBits)
  }

  // ---------------------------------------------------------------- the places of the fields

  lemma Fields(precision: nat, exponentBits: nat)
    requires Supported(precision, exponentBits)
    ensures var f, rest := FormatOf(precision, exponentBits), RPow(precision - 1);
      && SignBit(f) == 0x8000 * rest
      && Pow2(f.fraction) == Pow2(15 - exponentBits) * rest
      && Pow2(exponentBits) * Pow2(f.fraction) == SignBit(f)
      && RPow(precision) == 2 * SignBit(f)
  {
    hide Pow2, RPow;
    var f := FormatOf(precision, exponentBits);
    RPowIsPow2(precision - 1);
    RPowIsPow2(precision);
    Pow2Add(15, 16 * (precision - 1));
    Pow2Add(15 - exponentBits, 16 * (precision - 1));
    Pow2Add(exponentBits, f.fraction);
    Pow2Add(1, f.fraction + exponentBits);
    Pow2One();
    assert Pow2(15) == 0x8000 by {
      Pow2Add(1, 15);
      Pow2Sixteen();
    }
  }

  /** One first word and all the others the same. */
  method StoreWords(words: array<Littlenum>, precision: nat, first: Littlenum, rest: Littlenum)
    requires 0 < precision <= words.Length && rest in {0, 0xffff}
    modifies words
    ensures rest == 0 ==> Big(words[..precision]) == first * RPow(precision - 1)
    ensures rest == 0xffff ==> Big(words[..precision]) + 1 == (first + 1) * RPow(precision - 1)
    ensures forall k :: precision <= k < words.Length ==> words[k] == old(words[k])
  {
    hide Big, RPow;
    words[0] := first;
    OneWord(words[..1]);
    RPowZero();
    var i := 1;
    while i < precision
      invariant 1 <= i <= precision
      invariant rest == 0 ==> Big(words[..i]) == first * RPow(i - 1)
      invariant rest == 0xffff ==> Big(words[..i]) + 1 == (first + 1) * RPow(i - 1)
      invariant forall k :: precision <= k < words.Length ==> words[k] == old(words[k])
    {
      ghost var before := words[..i];
      words[i] := rest;
      assert words[..i] == before;
      assert words[..i + 1] == before + [rest];
      BigSnoc(before, rest);
      RPowStep(i - 1);
      MulMove(first, RPow(i - 1));
      MulMove(first + 1, RPow(i - 1));
      i := i + 1;
    }
  }

  lemma OneWord(s: seq<Littlenum>)
    requires |s| == 1
    ensures Big(s) == s[0]
  {
    assert s[..0] == [];
  }

  /** What every overflow stores, and every underflow below the limit. */
  method StoreInfinity(words: array<Littlenum>, precision: nat, exponentBits: nat, negative: bool)
    requires Supported(precision, exponentBits) && words.Length >= MAX_PRECISION
    modifies words
    ensures var f := FormatOf(precision, exponentBits);
      Big(words[..precision]) == (if negative then SignBit(f) else 0) + Infinity(f)
    ensures forall k :: precision <= k < words.Length ==> words[k] == old(words[k])
  {
    hide Big, RPow, Pow2, Infinity, SignBit;
    var first: Littlenum := if precision == 2 then 0x7f80 else 0x7ff0;
    var sign: Littlenum := if negative then 0x8000 else 0;
    InfinityField(precision, exponentBits);
    StoreWords(words, precision, first + sign, 0);
    Fields(precision, exponentBits);
    Distribute(first, sign, RPow(precision - 1));
  }

  lemma Distribute(a: int, b: int, c: int)
    ensures (a + b) * c == a * c + b * c
  {
  }

  lemma InfinityField(precision: nat, exponentBits: nat)
    requires Supported(precision, exponentBits)
    ensures Infinity(FormatOf(precision, exponentBits)) == (if precision == 2 then 0x7f80 else 0x7ff0) * RPow(precision - 1)
  {
    SmallPowers();
    Fields(precision, exponentBits);
    hide Pow2, RPow;
    Regroup(Pow2(exponentBits) - 1, Pow2(15 - exponentBits), RPow(precision - 1));
  }

  lemma SmallPowers()
    ensures Pow2(4) == 16 && Pow2(7) == 128 && Pow2(8) == 256 && Pow2(11) == 2048
  {
    assert Pow2(3) == 8 && Pow2(4) == 16;
    hide Pow2;
    Pow2Add(4, 4);
    Pow2Add(3, 8);
    Pow2Add(3, 4);
  }

  // ---------------------------------------------------------------- the leading bit

  lemma StillZero(v: nat, bits: nat, m: nat)
    requires v > 0 && TopBits(v, bits, m) == 0
    ensures m < bits
    ensures TopBits(v, bits, m + 1) == NextOf(v, bits, m, 1) <= 1
    ensures NextOf(v, bits, m, 1) == 1 ==> BitLength(v) == bits - m
  {
    hide Pow2, BitLength;
    if m >= bits {
      MulAtLeast(Pow2(m - bits), v);
    }
    Pow2One();
    TopBitsStep(v, bits, m, 1);
    assert TopBits(v, bits, m) * Pow2(1) == 0;
    if NextOf(v, bits, m, 1) == 1 {
      QuotientOne(v, Pow2(bits - m - 1));
      Pow2Add(1, bits - m - 1);
      BitLengthUnique(v, bits - m);
    }
  }

  lemma QuotientOne(v: nat, p: nat)
    requires p > 0 && v / p == 1
    ensures p <= v < 2 * p
  {
    assert v == (v / p) * p + v % p;
  }

  /** Seeks and forgets the first significant bit: sixteen reads at most when the leader is not zero. */
  method SeekFirstBit(reader: Reader) returns (skippage: nat)
    requires reader.Valid() && !reader.strayed && reader.pos == 0 && reader.Value() > 0
    modifies reader
    ensures reader.Valid() && !reader.strayed && reader.pos == skippage + 1 <= 16 * reader.length
    ensures skippage == 16 * reader.length - BitLength(reader.Value())
    ensures reader.low[reader.length - 1] != 0 ==> skippage < 16
  {
    hide Pow2, BitLength, TopBits, NextOf;
    ghost var v, bits := reader.Value(), 16 * reader.length;
    skippage := 0;
    NoBits(v, bits, reader.low[..reader.length]);
    var bit := reader.NextBits(1);
    while bit == 0
      invariant reader.Valid() && !reader.strayed && reader.pos == skippage + 1 && TopBits(v, bits, skippage) == 0
      invariant bit == NextOf(v, bits, skippage, 1)
      decreases bits - skippage
    {
      StillZero(v, bits, skippage);
      skippage := skippage + 1;
      bit := reader.NextBits(1);
    }
    StillZero(v, bits, skippage);
    if reader.low[reader.length - 1] != 0 {
      LeaderBits(reader.low[..reader.length], v);
    }
  }

  lemma NoBits(v: nat, bits: nat, s: seq<Littlenum>)
    requires v == Nat(s) && bits == 16 * |s|
    ensures TopBits(v, bits, 0) == 0
  {
    hide Pow2, RPow, Nat;
    NatBound(s);
    RPowIsPow2(|s|);
    Pow2Zero();
  }

  lemma LeaderBits(s: seq<Littlenum>, v: nat)
    requires s != [] && s[|s|-1] != 0 && v == Nat(s)
    ensures BitLength(v) > 16 * (|s| - 1)
  {
    hide Pow2, RPow, Nat, BitLength;
    NatLeader(s);
    RPowIsPow2(|s| - 1);
    BitLengthBounds(v);
    if BitLength(v) <= 16 * (|s| - 1) {
      Pow2Monotone(BitLength(v), 16 * (|s| - 1));
    }
  }

  /** Bits counted from the first significant one. */
  lemma AfterZeros(v: nat, bits: nat, m: nat)
    requires BitLength(v) <= bits
    ensures TopBits(v, bits, bits - BitLength(v) + m) == Leading(v, m)
  {
    hide Pow2, BitLength;
  }

  lemma LeadingStart(v: nat)
    requires v > 0
    ensures Leading(v, 0) == 0 && Leading(v, 1) == 1
  {
    hide Pow2, BitLength;
    BitLengthBounds(v);
    LeadingRange(v, 0);
    Pow2Zero();
    Pow2One();
    DivModUnique(v, Pow2(BitLength(v)), 0, v);
  }

  // ---------------------------------------------------------------- the words

  function Shifted(d: int, words: nat): int {
    d * RPow(words)
  }

  /** The rest of the words are just mantissa bits. */
  method FillWords(reader: Reader, words: array<Littlenum>, from: nat, n: nat)
    requires reader.Valid() && reader.low != words && from <= n <= words.Length
    modifies reader, words
    ensures reader.Valid() && reader.strayed == old(reader.strayed) && reader.pos == old(reader.pos) + 16 * (n - from)
    ensures forall k :: 0 <= k < from || n <= k < words.Length ==> words[k] == old(words[k])
    ensures var v, bits := reader.Value(), 16 * reader.length;
      Big(words[..n]) - TopBits(v, bits, reader.pos)
      == Shifted(old(Big(words[..from])) - TopBits(v, bits, old(reader.pos)), n - from)
  {
    hide Big, RPow, Pow2, NextOf, TopBits, Nat;
    ghost var v, bits := reader.Value(), 16 * reader.length;
    ghost var d := Big(words[..from]) - TopBits(v, bits, reader.pos);
    RPowZero();
    Pow2Sixteen();
    var lp := from;
    while lp < n
      invariant from <= lp <= n
      invariant forall k :: 0 <= k < from || n <= k < words.Length ==> words[k] == old(words[k])
      invariant reader.Valid() && reader.strayed == old(reader.strayed) && reader.pos == old(reader.pos) + 16 * (lp - from)
      invariant Big(words[..lp]) - TopBits(v, bits, reader.pos) == d * RPow(lp - from)
    {
      ghost var before, pos := words[..lp], reader.pos;
      var next := reader.NextBits(16);
      words[lp] := next;
      assert words[..lp + 1] == before + [next];
      BigSnoc(before, next);
      TopBitsStep(v, bits, pos, 16);
      RPowStep(lp - from);
      MulMove(d, RPow(lp - from));
      lp := lp + 1;
    }
  }

  /** The bit after those taken says whether to round up. */
  lemma RoundBit(v: nat, bits: nat, m: nat)
    ensures NextOf(v, bits, m, 1) <= 1
    ensures (TopBits(v, bits, m + 1) + 1) / 2 == TopBits(v, bits, m) + NextOf(v, bits, m, 1)
  {
    TopBitsStep(v, bits, m, 1);
    Pow2One();
    hide TopBits, Pow2;
  }

  // ---------------------------------------------------------------- normal numbers

  /** Word 1: sign, exponent and the high bits of the fraction. */
  lemma FirstWord(exponentBits: nat, precision: nat, e: nat, sign: nat, high: nat)
    requires Supported(precision, exponentBits) && sign <= 1
    requires 1 <= e < Pow2(exponentBits) && high < Pow2(15 - exponentBits)
    ensures e * Pow2(15 - exponentBits) + high < 0x8000
  {
    hide Pow2;
    Pow2Add(exponentBits, 15 - exponentBits);
    Pow2Add(1, 15);
    Pow2One();
    Pow2Sixteen();
    MulMonotone(e, Pow2(exponentBits) - 1, Pow2(15 - exponentBits));
    assert (Pow2(exponentBits) - 1) * Pow2(15 - exponentBits)
        == Pow2(exponentBits) * Pow2(15 - exponentBits) - Pow2(15 - exponentBits);
  }

  /** The fields above the significand, moved to their places, less the hidden bit that the exponent absorbs. */
  lemma FieldsInPlace(precision: nat, exponentBits: nat, e: nat, sign: nat)
    requires Supported(precision, exponentBits) && sign <= 1 && e >= 1
    ensures var f, c := FormatOf(precision, exponentBits), Pow2(15 - exponentBits);
      (sign * 0x8000 + e * c - c) * RPow(precision - 1) == sign * SignBit(f) + (e - 1) * Pow2(f.fraction)
  {
    hide Pow2, RPow, SignBit;
    Fields(precision, exponentBits);
    var f := FormatOf(precision, exponentBits);
    MoveFields(sign, e, Pow2(15 - exponentBits), RPow(precision - 1), SignBit(f), Pow2(f.fraction));
  }

  lemma MoveFields(sign: nat, e: nat, c: nat, rest: nat, top: nat, p: nat)
    requires top == 0x8000 * rest && p == c * rest
    ensures (sign * 0x8000 + e * c - c) * rest == sign * top + (e - 1) * p
  {
    MulPlusOne(e - 1, c);
    Distribute(sign * 0x8000, (e - 1) * c, rest);
    Shift(sign, 0x8000, rest);
    Shift(e - 1, c, rest);
  }

  lemma Shift(a: int, b: int, c: int)
    ensures (a * b) * c == a * (b * c)
  {
  }

  /** The fields never pass the sign bit, and reach it only in the one case. */
  lemma BelowSign(f: Format, v: nat, e: nat)
    requires IsFOrD(f) && v > 0 && 1 <= e < Pow2(f.exponentBits)
    ensures Rounded(v, f.fraction + 1) <= 2 * Pow2(f.fraction)
    ensures var n := (e - 1) * Pow2(f.fraction) + Rounded(v, f.fraction + 1);
      n <= SignBit(f) && (n == SignBit(f) <==> CarryReachesSign(f, v, e))
  {
    hide Pow2, Leading;
    Pow2Add(f.exponentBits, f.fraction);
    Pow2Add(1, f.fraction);
    Pow2Add(2, f.fraction);
    Pow2Add(1, 1);
    Pow2One();
    LeadingRange(v, f.fraction + 1);
    FieldRoom(e, Pow2(f.exponentBits), Pow2(f.fraction), Rounded(v, f.fraction + 1));
  }

  lemma FieldRoom(e: nat, top: nat, p: nat, q: nat)
    requires 1 <= e < top && q <= 2 * p && p > 0
    ensures (e - 1) * p + q <= top * p
    ensures (e - 1) * p + q == top * p <==> e == top - 1 && q == 2 * p
  {
    assert (e - 1) * p + 2 * p == (e + 1) * p;
    MulMonotone(e + 1, top, p);
    if e + 1 < top {
      MulMonotone(e + 2, top, p);
      assert (e + 2) * p == (e + 1) * p + p;
    }
  }

  /** If rounding has changed the sign bit, it is cleared whatever the sign was. */
  method ClearFlippedSign(words: array<Littlenum>, precision: nat, word1: Littlenum)
    requires 0 < precision <= words.Length
    modifies words
    ensures old(words[0]) / 0x8000 == word1 / 0x8000 ==> Big(words[..precision]) == old(Big(words[..precision]))
    ensures old(words[0]) / 0x8000 != word1 / 0x8000 ==>
      Big(words[..precision]) == old(Big(words[..precision])) - old(words[0]) / 0x8000 * 0x8000 * RPow(precision - 1)
    ensures forall k :: precision <= k < words.Length ==> words[k] == old(words[k])
  {
    hide Big, RPow;
    if words[0] / 0x8000 != word1 / 0x8000 {
      ghost var before := words[..precision];
      BigUpdate(before, 0, words[0] % 0x8000);
      words[0] := words[0] % 0x8000;
      assert words[..precision] == before[0 := words[0]];
      assert words[0] as int - before[0] as int == (-1) * (before[0] / 0x8000 * 0x8000) as int;
      Negated(before[0] / 0x8000 * 0x8000, RPow(precision - 1));
    }
  }

  lemma Negated(a: int, b: int)
    ensures (-a) * b == -(a * b)
  {
  }

  /** Rounding up the words from the sign down. */
  method RoundNormal(words: array<Littlenum>, precision: nat, exponentBits: nat, word1: Littlenum,
                     ghost sign: nat, ghost n: nat)
    requires Supported(precision, exponentBits) && precision <= words.Length
    requires sign <= 1 && word1 / 0x8000 == sign
    requires n < SignBit(FormatOf(precision, exponentBits))
    requires Big(words[..precision]) == sign * SignBit(FormatOf(precision, exponentBits)) + n
    modifies words
    ensures Big(words[..precision])
      == if n + 1 == SignBit(FormatOf(precision, exponentBits)) then 0 else old(Big(words[..precision])) + 1
    ensures forall k :: precision <= k < words.Length ==> words[k] == old(words[k])
  {
    hide Big, RPow, SignBit;
    ghost var b := SignBit(FormatOf(precision, exponentBits));
    PropagateCarry(words, precision);
    Fields(precision, exponentBits);
    ghost var after := Big(words[..precision]);
    BigFirst(words[..precision]);
    SignOf(after, b, RPow(precision - 1), words[0]);
    CarriedOut(sign, b, n, after);
    ClearFlippedSign(words, precision, word1);
    Shift(words[0] / 0x8000, 0x8000, RPow(precision - 1));
  }

  lemma SignOf(after: nat, b: nat, rest: nat, first: Littlenum)
    requires b == 0x8000 * rest && rest > 0 && after / rest == first && after < 2 * b
    ensures first / 0x8000 == if after < b then 0 else 1
    ensures first / 0x8000 * 0x8000 * rest == if after < b then 0 else b
  {
    assert after == first * rest + after % rest;
    if after < b {
      if first >= 0x8000 {
        MulMonotone(0x8000, first, rest);
      }
    } else if first < 0x8000 {
      MulMonotone(first, 0x7fff, rest);
    }
  }

  lemma CarriedOut(sign: nat, b: nat, n: nat, after: nat)
    requires sign <= 1 && n < b && after == (sign * b + n + 1) % (2 * b)
    ensures n + 1 < b ==> after == sign * b + n + 1
    ensures n + 1 == b ==> after == if sign == 0 then b else 0
  {
    if n + 1 < b || sign == 0 {
      DivModUnique(sign * b + n + 1, 2 * b, 0, sign * b + n + 1);
    } else {
      DivModUnique(2 * b, 2 * b, 1, 0);
    }
  }

  /** The first bits read after the leading one. */
  lemma HighBits(v: nat, bits: nat, c: nat)
    requires v > 0 && BitLength(v) <= bits
    ensures var pos := bits - BitLength(v) + 1;
      TopBits(v, bits, pos + c) == Pow2(c) + NextOf(v, bits, pos, c)
  {
    hide Pow2, BitLength, TopBits, NextOf, Leading;
    LeadingStart(v);
    AfterZeros(v, bits, 1);
    TopBitsStep(v, bits, bits - BitLength(v) + 1, c);
  }

  /** What was read and one bit more, as significant bits of the number. */
  lemma RoundedBits(v: nat, bits: nat, m: nat)
    requires v > 0 && BitLength(v) <= bits
    ensures var pos := bits - BitLength(v) + m;
      && TopBits(v, bits, pos) == Leading(v, m)
      && NextOf(v, bits, pos, 1) <= 1
      && Rounded(v, m) == Leading(v, m) + NextOf(v, bits, pos, 1)
  {
    hide Pow2, BitLength, TopBits, NextOf, Leading;
    AfterZeros(v, bits, m);
    AfterZeros(v, bits, m + 1);
    RoundBit(v, bits, bits - BitLength(v) + m);
  }

  lemma EncodedNormal(f: Format, negative: bool, v: nat, e: nat)
    requires IsFOrD(f) && v > 0 && 1 <= e < Pow2(f.exponentBits)
    ensures Encoded(f, negative, v, e)
      == if CarryReachesSign(f, v, e) then 0
         else (if negative then 1 else 0) * SignBit(f) + (e - 1) * Pow2(f.fraction) + Rounded(v, f.fraction + 1)
    ensures (e - 1) * Pow2(f.fraction) + Leading(v, f.fraction + 1) < SignBit(f)
    ensures var n := (e - 1) * Pow2(f.fraction) + Rounded(v, f.fraction + 1);
      n <= SignBit(f) && (n == SignBit(f) <==> CarryReachesSign(f, v, e))
  {
    BelowSign(f, v, e);
    hide Pow2, Leading, SignBit, CarryReachesSign, Rounded;
    LeadingRange(v, f.fraction);
    Pow2Add(f.exponentBits, f.fraction);
    Pow2Add(1, f.fraction);
    Pow2One();
    assert SignBit(f) == Pow2(f.exponentBits) * Pow2(f.fraction) by { SignBitIs(f); }
    FieldRoom(e, Pow2(f.exponentBits), Pow2(f.fraction), Leading(v, f.fraction + 1));
  }

  lemma SignBitIs(f: Format)
    ensures SignBit(f) == Pow2(f.exponentBits) * Pow2(f.fraction)
  {
    Pow2Add(f.exponentBits, f.fraction);
    hide Pow2;
  }

  /** Sign and exponent in their places, less the hidden bit. */
  function FieldsValue(f: Format, sign: nat, e: nat): int
  {
    sign * SignBit(f) + (e - 1) * Pow2(f.fraction)
  }

  /** What the first word holds beyond the significant bits read so far. */
  lemma FieldsRead(precision: nat, exponentBits: nat, e: nat, sign: nat, v: nat, bits: nat, high: nat, word1: nat)
    requires Supported(precision, exponentBits) && sign <= 1 && e >= 1 && v > 0 && BitLength(v) <= bits
    requires high == NextOf(v, bits, bits - BitLength(v) + 1, 15 - exponentBits)
    requires Supported(precision, exponentBits) && e < Pow2(exponentBits) && high < Pow2(15 - exponentBits)
    requires word1 == sign * 0x8000 + FieldsOf(e, exponentBits, precision, high)
    ensures var f := FormatOf(precision, exponentBits);
      Shifted(word1 - TopBits(v, bits, bits - BitLength(v) + 1 + (15 - exponentBits)), precision - 1)
      == FieldsValue(f, sign, e)
  {
    hide RPow, Pow2, NextOf, TopBits, SignBit, BitLength;
    HighBits(v, bits, 15 - exponentBits);
    FieldsInPlace(precision, exponentBits, e, sign);
  }

  /** The exponent has room: the first bit has been read, and is not written. */
  method EncodeNormal(reader: Reader, words: array<Littlenum>, precision: nat, exponentBits: nat, e: nat, negative: bool)
    requires Supported(precision, exponentBits) && words.Length >= MAX_PRECISION && reader.low != words
    requires 1 <= e < Pow2(exponentBits)
    requires reader.Valid() && reader.Value() > 0 && BitLength(reader.Value()) <= 16 * reader.length
    requires reader.pos == 16 * reader.length - BitLength(reader.Value()) + 1
    modifies reader, words
    ensures Big(words[..precision]) == Encoded(FormatOf(precision, exponentBits), negative, old(reader.Value()), e)
    ensures forall k :: precision <= k < words.Length ==> words[k] == old(words[k])
  {
    hide Big, RPow, Pow2, NextOf, TopBits, Nat, SignBit, Leading, Rounded, BitLength, Encoded, CarryReachesSign;
    hide Shifted, FieldsValue, FieldsOf;
    ghost var f := FormatOf(precision, exponentBits);
    ghost var v, bits := reader.Value(), 16 * reader.length;
    ghost var sign := if negative then 1 else 0;
    ghost var m := f.fraction + 1;
    var high := reader.NextBits(15 - exponentBits);
    var fields := FieldsOf(e, exponentBits, precision, high);
    var word1: Littlenum := (if negative then 0x8000 else 0) + fields;
    FieldsRead(precision, exponentBits, e, sign, v, bits, high, word1);
    words[0] := word1;
    OneWord(words[..1]);
    FillWords(reader, words, 1, precision);
    RoundedBits(v, bits, m);
    EncodedFields(f, negative, v, e);
    ghost var n := FieldsValue(f, 0, e) + Leading(v, m);
    assert Big(words[..precision]) == sign * SignBit(f) + n;
    var round := reader.NextBits(1);
    if round != 0 {
      RoundNormal(words, precision, exponentBits, word1, sign, n);
    }
  }

  function FieldsOf(e: nat, exponentBits: nat, precision: nat, high: nat): (fields: nat)
    requires Supported(precision, exponentBits)
    requires 1 <= e < Pow2(exponentBits) && high < Pow2(15 - exponentBits)
    ensures fields < 0x8000
  {
    FirstWord(exponentBits, precision, e, 0, high);
    e * Pow2(15 - exponentBits) + high
  }

  lemma EncodedFields(f: Format, negative: bool, v: nat, e: nat)
    requires IsFOrD(f) && v > 0 && 1 <= e < Pow2(f.exponentBits)
    ensures var sign, n := if negative then 1 else 0, FieldsValue(f, 0, e);
      && FieldsValue(f, sign, e) == sign * SignBit(f) + n
      && n >= 0 && n + Leading(v, f.fraction + 1) < SignBit(f) && n + Rounded(v, f.fraction + 1) <= SignBit(f)
      && Encoded(f, negative, v, e)
        == if n + Rounded(v, f.fraction + 1) == SignBit(f) then 0 else sign * SignBit(f) + n + Rounded(v, f.fraction + 1)
  {
    hide Encoded, Pow2, Leading, Rounded, SignBit, CarryReachesSign;
    EncodedNormal(f, negative, v, e);
    assert (e - 1) * Pow2(f.fraction) >= 0;
  }

  // ---------------------------------------------------------------- denormals

  /** The words down to the one that holds the first significant bit. Fewer bits than none are wanted when
      that word lies just past the format. */
  method StartDenormal(reader: Reader, words: array<Littlenum>, precision: nat, exponentBits: nat,
                       shift: nat, word1: Littlenum) returns (lp: nat, tooSmall: bool)
    requires Supported(precision, exponentBits) && words.Length >= MAX_PRECISION && reader.low != words
    requires reader.Valid() && word1 in {0, 0x8000}
    requires TopBits(reader.Value(), 16 * reader.length, reader.pos) == 0
    modifies reader, words
    ensures reader.Valid() && reader.strayed == old(reader.strayed) && 1 <= lp <= precision + 1
    ensures forall k :: precision < k < words.Length ==> words[k] == old(words[k])
    ensures tooSmall <==> shift >= UnderflowLimit(FormatOf(precision, exponentBits))
    ensures !tooSmall ==> (lp <= precision <==> shift <= FormatOf(precision, exponentBits).fraction)
    ensures !tooSmall && lp > precision ==> Big(words[..precision]) == word1 * RPow(precision - 1)
    ensures !tooSmall ==>
      reader.pos == old(reader.pos) + FormatOf(precision, exponentBits).fraction - shift - 16 * (precision - lp)
    ensures !tooSmall ==>
      Big(words[..lp]) == word1 * RPow(lp - 1) + TopBits(reader.Value(), 16 * reader.length, reader.pos)
  {
    hide Big, RPow, Pow2, NextOf, TopBits, Nat;
    ghost var v, bits := reader.Value(), 16 * reader.length;
    RPowZero();
    SmallPowers();
    tooSmall := false;
    lp := 1;
    var numBits: nat := shift;
    if numBits >= 16 - exponentBits {
      numBits := numBits - (15 - exponentBits);
      words[0] := word1;
      OneWord(words[..1]);
      if numBits + exponentBits + 1 >= precision * 16 {
        return lp, true;
      }
      while numBits >= 16
        modifies words
        invariant 1 <= lp <= precision && numBits == shift - (15 - exponentBits) - 16 * (lp - 1)
        invariant Big(words[..lp]) == word1 * RPow(lp - 1)
        invariant forall k :: precision < k < words.Length ==> words[k] == old(words[k])
      {
        numBits := numBits - 16;
        AppendWord(words, lp, 0, word1);
        lp := lp + 1;
      }
      ghost var pos := reader.pos;
      if numBits > 0 {
        var next := reader.NextBits(16 - numBits);
        WordRoom(16 - numBits);
        AppendWord(words, lp, next, word1);
        lp := lp + 1;
        FirstBits(v, bits, pos, 16 - numBits);
      }
    } else {
      var next := reader.NextBits(15 - (exponentBits + numBits));
      FirstDenormalWord(exponentBits + numBits);
      words[0] := word1 + next;
      OneWord(words[..1]);
      FirstBits(v, bits, old(reader.pos), 15 - (exponentBits + numBits));
    }
  }

  lemma FirstBits(v: nat, bits: nat, pos: nat, n: nat)
    requires TopBits(v, bits, pos) == 0
    ensures TopBits(v, bits, pos + n) == NextOf(v, bits, pos, n)
  {
    TopBitsStep(v, bits, pos, n);
    hide TopBits, NextOf, Pow2;
    assert 0 * Pow2(n) == 0;
  }

  lemma WordRoom(n: nat)
    requires n <= 16
    ensures Pow2(n) <= RADIX
  {
    Pow2Monotone(n, 16);
    Pow2Sixteen();
  }

  lemma FirstDenormalWord(n: nat)
    requires n <= 15
    ensures Pow2(15 - n) <= 0x8000
  {
    hide Pow2;
    Pow2Monotone(15 - n, 15);
    Pow2Add(1, 15);
    Pow2One();
    Pow2Sixteen();
  }

  /** The next word of a number that had zeros only after its first word. */
  method AppendWord(words: array<Littlenum>, lp: nat, next: Littlenum, ghost word1: Littlenum)
    requires 1 <= lp < words.Length
    requires Big(words[..lp]) == word1 * RPow(lp - 1)
    modifies words
    ensures words[..lp] == old(words[..lp])
    ensures Big(words[..lp + 1]) == word1 * RPow(lp) + next
    ensures forall k :: lp < k < words.Length ==> words[k] == old(words[k])
  {
    hide Big, RPow;
    ghost var before := words[..lp];
    words[lp] := next;
    assert words[..lp] == before;
    assert words[..lp + 1] == before + [next];
    BigSnoc(before, next);
    RPowStep(lp - 1);
    MulMove(word1, RPow(lp - 1));
  }

  /** The last word of a number whose other words hold only a sign. */
  lemma LastWord(high: nat, last: Littlenum, sign: nat, t: nat, low: nat)
    requires high * RADIX + last == sign * (RADIX * t) + low && low < RADIX
    ensures last == low && high * RADIX == sign * (RADIX * t)
  {
    assert sign * (RADIX * t) == (sign * t) * RADIX;
    DivModUnique(high * RADIX + last, RADIX, high, last);
    DivModUnique(high * RADIX + last, RADIX, sign * t, low);
  }

  /** With more than sixteen bits the carry is propagated; otherwise it stays in the last word. */
  method RoundDenormal(words: array<Littlenum>, precision: nat, exponentBits: nat, precisionBits: nat,
                       ghost sign: nat, ghost low: nat)
    requires Supported(precision, exponentBits) && precision <= words.Length && sign <= 1
    requires precisionBits <= FormatOf(precision, exponentBits).fraction
    requires low < Pow2(precisionBits)
    requires Big(words[..precision]) == sign * SignBit(FormatOf(precision, exponentBits)) + low
    modifies words
    ensures Big(words[..precision]) == sign * SignBit(FormatOf(precision, exponentBits))
        + if precisionBits == 16 && low == 0xffff then 0 else low + 1
    ensures forall k :: precision <= k < words.Length ==> words[k] == old(words[k])
  {
    hide Big, RPow, SignBit, Pow2;
    ghost var f := FormatOf(precision, exponentBits);
    Fields(precision, exponentBits);
    if precisionBits > 16 {
      PropagateCarry(words, precision);
      Pow2Monotone(precisionBits, f.fraction);
      BelowSignBit(f);
      CarriedOut(sign, SignBit(f), low, Big(words[..precision]));
    } else {
      Pow2Sixteen();
      Pow2Monotone(precisionBits, 16);
      ghost var before := words[..precision];
      ghost var high := Big(before[..precision - 1]);
      BigTake(before, precision - 1);
      assert before[..precision] == before;
      RPowStep(precision - 2);
      LastWord(high, words[precision - 1], sign, 0x8000 * RPow(precision - 2), low);
      words[precision - 1] := (words[precision - 1] + 1) % RADIX;
      assert words[..precision] == before[..precision - 1] + [words[precision - 1]];
      BigSnoc(before[..precision - 1], words[precision - 1]);
      if low == 0xffff && precisionBits < 16 {
        ShortBits(precisionBits);
      }
    }
  }

  lemma ShortBits(n: nat)
    requires n < 16
    ensures Pow2(n) <= 0x8000
  {
    FirstDenormalWord(15 - n);
  }

  lemma BelowSignBit(f: Format)
    requires IsFOrD(f)
    ensures 2 * Pow2(f.fraction) <= SignBit(f)
  {
    hide Pow2;
    Pow2Add(1, f.fraction);
    Pow2One();
    Pow2Monotone(1 + f.fraction, f.fraction + f.exponentBits);
  }

  lemma EncodedDenormal(f: Format, negative: bool, v: nat, e: int)
    requires IsFOrD(f) && v > 0 && -UnderflowLimit(f) < e <= 0
    ensures Encoded(f, negative, v, e)
      == (if negative then 1 else 0) * SignBit(f)
       + if f.fraction + e < 0 || CarryIsLost(f, v, e) then 0 else Rounded(v, f.fraction + e)
  {
    ExponentRange(f);
    hide Pow2, CarryIsLost, Rounded, SignBit;
  }

  /** Rounding the sixteen bits 0xffff up is losing the carry. */
  lemma LostCarry(f: Format, v: nat, bits: nat, e: int)
    requires v > 0 && BitLength(v) <= bits && f.fraction + e >= 0
    ensures var m := f.fraction + e;
      CarryIsLost(f, v, e)
      <==> m == 16 && Leading(v, 16) == 0xffff && NextOf(v, bits, bits - BitLength(v) + m, 1) == 1
  {
    var m := f.fraction + e;
    if m == 16 {
      hide Pow2, BitLength, TopBits, NextOf, Leading;
      AfterZeros(v, bits, m);
      AfterZeros(v, bits, m + 1);
      TopBitsStep(v, bits, bits - BitLength(v) + m, 1);
      Pow2One();
      RoundBit(v, bits, bits - BitLength(v) + m);
    }
  }

  /** The exponent is too small for a normal number, and the first bit has been put back; after straying it may be
      a zero that is read instead. */
  method EncodeDenormal(reader: Reader, words: array<Littlenum>, precision: nat, exponentBits: nat, e: int, negative: bool)
    requires Supported(precision, exponentBits) && words.Length >= MAX_PRECISION && reader.low != words
    requires e <= 0 && reader.Valid() && BitLength(reader.Value()) <= 16 * reader.length
    requires reader.Value() > 0 ==> reader.pos == 16 * reader.length - BitLength(reader.Value())
    modifies reader, words
    ensures Big(words[..precision]) == EncodedBits(FormatOf(precision, exponentBits), negative, old(reader.Value()), e)
    ensures forall k :: precision < k < words.Length ==> words[k] == old(words[k])
  {
    hide Big, RPow, Pow2, NextOf, TopBits, Nat, SignBit, Leading, Rounded, BitLength, EncodedBits;
    ghost var f := FormatOf(precision, exponentBits);
    ghost var v := reader.Value();
    ghost var sign := if negative then 1 else 0;
    var word1: Littlenum := if negative then 0x8000 else 0;
    NothingBefore(v, 16 * reader.length, reader.pos);
    var lp, tooSmall := StartDenormal(reader, words, precision, exponentBits, -e, word1);
    if tooSmall {
      StoreInfinity(words, precision, exponentBits, negative);
      BitsTooSmall(f, negative, v, e);
      return;
    }
    Fields(precision, exponentBits);
    Shift(sign, 0x8000, RPow(precision - 1));
    FinishDenormal(reader, words, precision, exponentBits, e, lp, word1, sign);
    DenormalBits(f, negative, v, e);
  }

  lemma NothingBefore(v: nat, bits: nat, pos: nat)
    requires BitLength(v) <= bits && (v > 0 ==> pos == bits - BitLength(v))
    ensures TopBits(v, bits, pos) == 0
  {
    if v > 0 {
      AfterZeros(v, bits, 0);
      LeadingStart(v);
    } else {
      ZeroTopBits(bits, pos);
    }
  }

  lemma ZeroTopBits(bits: nat, pos: nat)
    ensures TopBits(0, bits, pos) == 0
    ensures forall n :: NextOf(0, bits, pos, n) == 0
  {
  }

  /** The significant bits of a denormal; none when nothing but zeros is read. */
  function DenormalFraction(f: Format, v: nat, e: int): nat {
    if v == 0 || f.fraction + e < 0 || CarryIsLost(f, v, e) then 0 else Rounded(v, f.fraction + e)
  }

  /** The rest of a denormal's words, and its rounding. */
  method FinishDenormal(reader: Reader, words: array<Littlenum>, precision: nat, exponentBits: nat, e: int,
                        lp: nat, word1: Littlenum, ghost sign: nat)
    requires Supported(precision, exponentBits) && words.Length >= MAX_PRECISION && reader.low != words
    requires -UnderflowLimit(FormatOf(precision, exponentBits)) < e <= 0 && 1 <= lp <= precision + 1
    requires reader.Valid() && BitLength(reader.Value()) <= 16 * reader.length
    requires sign <= 1 && word1 * RPow(precision - 1) == sign * SignBit(FormatOf(precision, exponentBits))
    requires lp <= precision <==> FormatOf(precision, exponentBits).fraction + e >= 0
    requires lp > precision ==> Big(words[..precision]) == word1 * RPow(precision - 1)
    requires lp <= precision ==>
      var f, v, bits := FormatOf(precision, exponentBits), reader.Value(), 16 * reader.length;
      && (v > 0 ==> reader.pos == bits - BitLength(v) + f.fraction + e - 16 * (precision - lp))
      && Big(words[..lp]) == word1 * RPow(lp - 1) + TopBits(v, bits, reader.pos)
    modifies reader, words
    ensures var f := FormatOf(precision, exponentBits);
      Big(words[..precision]) == sign * SignBit(f) + DenormalFraction(f, old(reader.Value()), e)
    ensures forall k :: precision < k < words.Length ==> words[k] == old(words[k])
  {
    hide Big, RPow, Pow2, NextOf, TopBits, Nat, SignBit, Leading, Rounded, BitLength, CarryIsLost;
    ghost var f := FormatOf(precision, exponentBits);
    ghost var v, bits := reader.Value(), 16 * reader.length;
    ghost var m := f.fraction + e;
    if lp > precision {
      var round := reader.NextBits(1);
      if round != 0 {
        words[lp - 1] := (words[lp - 1] + 1) % RADIX;
      }
    } else {
      FillWords(reader, words, lp, precision);
      Joint(word1, lp - 1, precision - lp);
      if v == 0 {
        ZeroTopBits(bits, old(reader.pos));
        ZeroTopBits(bits, reader.pos);
      } else {
        RoundedBits(v, bits, m);
        LostCarry(f, v, bits, e);
      }
      var round := reader.NextBits(1);
      if round != 0 {
        LeadingBelow(v, m);
        RoundDenormal(words, precision, exponentBits, precision * 16 - (exponentBits + 1 - e), sign, Leading(v, m));
      }
    }
  }

  /** A denormal of which nothing but zeros is read keeps its sign only, and is still taken for too large when too small. */
  function EncodedBits(f: Format, negative: bool, v: nat, e: int): nat {
    if v > 0 then Encoded(f, negative, v, e)
    else (if negative then SignBit(f) else 0) + if e <= -UnderflowLimit(f) then Infinity(f) else 0
  }

  lemma BitsTooSmall(f: Format, negative: bool, v: nat, e: int)
    requires IsFOrD(f) && e <= -UnderflowLimit(f)
    ensures EncodedBits(f, negative, v, e) == (if negative then SignBit(f) else 0) + Infinity(f)
  {
    EncodedTooSmall(f, negative, v, e);
    hide Encoded, SignBit, Infinity;
  }

  lemma DenormalBits(f: Format, negative: bool, v: nat, e: int)
    requires IsFOrD(f) && -UnderflowLimit(f) < e <= 0
    ensures EncodedBits(f, negative, v, e) == (if negative then 1 else 0) * SignBit(f) + DenormalFraction(f, v, e)
  {
    if v > 0 {
      EncodedDenormal(f, negative, v, e);
    }
    hide Encoded, SignBit, Infinity, CarryIsLost, Rounded;
  }

  lemma Joint(word1: nat, a: nat, b: nat)
    ensures (word1 * RPow(a)) * RPow(b) == word1 * RPow(a + b)
  {
    RPowAdd(a, b);
    hide RPow;
    Shift(word1, RPow(a), RPow(b));
  }

  lemma LeadingBelow(v: nat, m: nat)
    requires v > 0
    ensures Leading(v, m) < Pow2(m)
  {
    if m == 0 {
      LeadingStart(v);
    } else {
      LeadingRange(v, m - 1);
    }
  }

  lemma EncodedTooSmall(f: Format, negative: bool, v: nat, e: int)
    requires IsFOrD(f) && e <= -UnderflowLimit(f)
    ensures Encoded(f, negative, v, e) == (if negative then SignBit(f) else 0) + Infinity(f)
  {
    ExponentRange(f);
    hide Pow2, SignBit, Infinity, Rounded;
  }

  // ---------------------------------------------------------------- the whole

  /** The leading bit is read once to seek it and put back for a denormal. When it was the very last one, the lowest bit
      of the littlenum above takes its place. */
  function EncodedFrom(f: Format, negative: bool, v: nat, e: int, above: Littlenum): nat {
    EncodedBits(f, negative, if v == 1 && -62 <= e < 1 then above % 2 else v, e)
  }

  /** That spoils exactly the single bit, as a denormal that is not too small for the format, below an even littlenum. */
  lemma LoneBitIsLostIff(f: Format, negative: bool, v: nat, e: int, above: Littlenum)
    requires IsFOrD(f) && v > 0
    ensures EncodedFrom(f, negative, v, e, above) != Encoded(f, negative, v, e)
      <==> v == 1 && f.fraction + e >= 0 && e <= 0 && above % 2 == 0
  {
    if v == 1 && -62 <= e < 1 && above % 2 == 0 {
      if e <= -UnderflowLimit(f) {
        BitsTooSmall(f, negative, 0, e);
        EncodedTooSmall(f, negative, 1, e);
      } else {
        DenormalBits(f, negative, 0, e);
        DenormalBits(f, negative, 1, e);
        if f.fraction + e >= 0 {
          LoneRounded(f, e);
        }
      }
    }
    hide Encoded, SignBit, Infinity, CarryIsLost, Rounded, EncodedBits;
    hide Pow2;
    assert EncodedBits(f, negative, v, e) == Encoded(f, negative, v, e) by { BitsOf(f, negative, v, e); }
  }

  lemma BitsOf(f: Format, negative: bool, v: nat, e: int)
    requires v > 0
    ensures EncodedBits(f, negative, v, e) == Encoded(f, negative, v, e)
  {
  }

  lemma LoneRounded(f: Format, e: int)
    requires IsFOrD(f) && f.fraction + e >= 0
    ensures Rounded(1, f.fraction + e) > 0 && !CarryIsLost(f, 1, e)
  {
    var m := f.fraction + e;
    Pow2Zero();
    Pow2One();
    SmallBitLength(1);
    LeadingRange(1, m);
    assert Leading(1, 17) == Pow2(16);
    Pow2Sixteen();
  }

  /** What the words must be for a flonum of each sign; above is the littlenum after its lowest one. */
  ghost predicate IsEncodingOf(f: Format, sign: char, s: seq<Littlenum>, exponent: int, above: Littlenum, encoded: nat) {
    if s == [] then encoded == if sign == '+' then 0 else SignBit(f)
    else if sign == '\0' then encoded == SignBit(f) - 1
    else if sign == 'P' then encoded == Infinity(f)
    else if sign == 'N' then encoded == SignBit(f) + Infinity(f)
    else encoded == EncodedFrom(f, sign == '-', Nat(s), BiasedExponent(f, Nat(s), exponent), above)
  }

  /** gen_to_words for the formats F and D. Seeking the first bit needs a littlenum that is not zero. */
  method GenToWords(number: F.Flonum, words: array<Littlenum>, precision: nat, exponentBits: nat)
    requires number.Valid() && number.low.Length > 1 && number.sign in {'+', '-', '\0', 'P', 'N'}
    requires number.sign in {'+', '-'} && number.leader >= 0 ==> !AllZero(number.Littlenums())
    requires Supported(precision, exponentBits) && words.Length >= MAX_PRECISION && words != number.low
    modifies words
    ensures IsEncodingOf(FormatOf(precision, exponentBits), number.sign, number.Littlenums(), number.exponent,
                         number.low[1], Big(words[..precision]))
    ensures forall k :: precision < k < words.Length ==> words[k] == old(words[k])
  {
    hide Big, RPow, Pow2, Nat, SignBit, Infinity, BitLength, EncodedFrom;
    Fields(precision, exponentBits);
    if number.leader < 0 {
      StoreWords(words, precision, if number.sign == '+' then 0 else 0x8000, 0);
    } else if number.sign == '\0' {
      StoreWords(words, precision, 0x7fff, 0xffff);
    } else if number.sign == 'P' {
      StoreInfinity(words, precision, exponentBits, false);
    } else if number.sign == 'N' {
      StoreInfinity(words, precision, exponentBits, true);
    } else {
      GenFinite(number, words, precision, exponentBits);
    }
  }

  method GenFinite(number: F.Flonum, words: array<Littlenum>, precision: nat, exponentBits: nat)
    requires number.Valid() && number.low.Length > 1 && number.sign in {'+', '-'} && number.leader >= 0
    requires !AllZero(number.Littlenums())
    requires Supported(precision, exponentBits) && words.Length >= MAX_PRECISION && words != number.low
    modifies words
    ensures var f, v := FormatOf(precision, exponentBits), Nat(number.Littlenums());
      Big(words[..precision])
      == EncodedFrom(f, number.sign == '-', v, BiasedExponent(f, v, number.exponent), number.low[1])
    ensures forall k :: precision < k < words.Length ==> words[k] == old(words[k])
  {
    hide Big, RPow, Pow2, Nat, SignBit, Infinity, BitLength, EncodedBits, AllZero;
    ghost var f, v := FormatOf(precision, exponentBits), Nat(number.Littlenums());
    NatZero(number.Littlenums());
    var reader := new Reader(number.low, number.leader + 1);
    var skippage := SeekFirstBit(reader);
    BitLengthBounds(v);
    var exponent4 := 16 * (number.exponent + number.leader + 1) - skippage + (Pow2(exponentBits - 1) - 2);
    assert exponent4 == BiasedExponent(f, v, number.exponent);
    if -62 <= exponent4 < 1 {
      LoneBit(v);
      reader.UngetBit();
      assert reader.Value() == if v == 1 then number.low[1] % 2 else v;
      SmallBitLength(reader.Value());
      EncodeDenormal(reader, words, precision, exponentBits, exponent4, number.sign == '-');
    } else if exponent4 < 0 || exponent4 >= Pow2(exponentBits) {
      StoreInfinity(words, precision, exponentBits, number.sign == '-');
      EncodedInfinity(f, number.sign == '-', v, exponent4);
      BitsOf(f, number.sign == '-', v, exponent4);
    } else {
      EncodeNormal(reader, words, precision, exponentBits, exponent4, number.sign == '-');
      BitsOf(f, number.sign == '-', v, exponent4);
    }
  }

  lemma SmallBitLength(v: nat)
    ensures v <= 1 ==> BitLength(v) == v
  {
  }

  lemma LoneBit(v: nat)
    requires v > 0
    ensures BitLength(v) == 1 <==> v == 1
  {
    BitLengthBounds(v);
    Pow2Zero();
    Pow2One();
    hide Pow2;
  }

  lemma EncodedInfinity(f: Format, negative: bool, v: nat, e: int)
    requires IsFOrD(f) && (e < -62 || e >= Pow2(f.exponentBits))
    ensures Encoded(f, negative, v, e) == (if negative then SignBit(f) else 0) + Infinity(f)
  {
    ExponentRange(f);
    hide Pow2, SignBit, Infinity, Rounded;
  }
}
