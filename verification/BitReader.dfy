/** Reading a flonum bit by bit from its highest littlenum: next_bits and unget_bits of
    cctools/as/atof-ieee.c. */
module BitReader {
  import opened Arith
  import opened Bignum

  lemma Pow2Sixteen()
    ensures Pow2(16) == RADIX
  {
    assert Pow2(4) == 16;
    Pow2Add(4, 4);
    Pow2Add(8, 8);
  }

  lemma {:induction false} RPowIsPow2(k: nat)
    ensures RPow(k) == Pow2(16 * k)
  {
    if k > 0 {
      RPowIsPow2(k - 1);
      Pow2Sixteen();
      Pow2Add(16, 16 * (k - 1));
    }
  }

  /** The first m bits of a number of so many bits, which zeros follow for ever. */
  function TopBits(value: nat, bits: nat, m: nat): nat {
    if m <= bits then value / Pow2(bits - m) else value * Pow2(m - bits)
  }

  /** The n bits after the first m. */
  function NextOf(value: nat, bits: nat, m: nat, n: nat): nat {
    TopBits(value, bits, m + n) % Pow2(n)
  }

  lemma CancelFactor(x: nat, a: nat, b: nat)
    requires a > 0 && b > 0
    ensures a * b > 0 && (x * a) / (a * b) == x / b
  {
    MulAtLeast(a, b);
    var q, r := x / b, x % b;
    assert x == q * b + r;
    assert x * a == q * (a * b) + r * a;
    assert r * a <= (b - 1) * a by { MulMonotone(r, b - 1, a); }
    assert (b - 1) * a == a * b - a;
    assert r * a >= 0;
    DivModUnique(x * a, a * b, q, r * a);
  }

  /** Reading m bits and then n more is reading m + n bits. */
  lemma TopBitsStep(value: nat, bits: nat, m: nat, n: nat)
    ensures TopBits(value, bits, m + n) == TopBits(value, bits, m) * Pow2(n) + NextOf(value, bits, m, n)
  {
    hide Pow2;
    var all := TopBits(value, bits, m + n);
    assert all / Pow2(n) == TopBits(value, bits, m) by {
      if m + n <= bits {
        Pow2Add(bits - m - n, n);
        DivDiv(value, Pow2(bits - m - n), Pow2(n));
      } else if m <= bits {
        Pow2Add(m + n - bits, bits - m);
        CancelFactor(value, Pow2(m + n - bits), Pow2(bits - m));
      } else {
        Pow2Add(m - bits, n);
        assert value * (Pow2(m - bits) * Pow2(n)) == (value * Pow2(m - bits)) * Pow2(n);
        ModOfMultiple(value * Pow2(m - bits), Pow2(n));
      }
    }
    assert all == (all / Pow2(n)) * Pow2(n) + all % Pow2(n);
  }

  // ---------------------------------------------------------------- where the bits lie

  /** Bits taken from inside the lowest littlenum of a number. */
  lemma InsideLow(x: Littlenum, y: nat, c: nat, n: nat)
    requires c + n <= 16
    ensures ((x + RADIX * y) / Pow2(c)) % Pow2(n) == (x / Pow2(c)) % Pow2(n)
  {
    hide Pow2;
    Pow2Sixteen();
    Pow2Add(n, 16 - c - n);
    Pow2Add(c, 16 - c);
    Inside(x, Pow2(c), Pow2(n), Pow2(16 - c - n), RADIX, y);
  }

  lemma Inside(x: nat, p: nat, q: nat, t: nat, radix: nat, y: nat)
    requires p > 0 && q > 0 && radix == p * (q * t)
    ensures ((x + radix * y) / p) % q == (x / p) % q
  {
    Regroup(q, t, y);
    Gather(x, x / p, x % p, p, q * t, y);
    DivModUnique(x + radix * y, p, x / p + q * (t * y), x % p);
    ModPlusMultiple(x / p, t * y, q);
  }

  lemma ModPlusMultiple(k: nat, z: nat, q: nat)
    requires q > 0
    ensures (k + q * z) % q == k % q
  {
    assert k + q * z == (k / q + z) * q + k % q;
    DivModUnique(k + q * z, q, k / q + z, k % q);
  }

  /** Bits taken across the border between two littlenums. */
  lemma AcrossBorder(x: Littlenum, y: Littlenum, z: nat, high: nat, m: nat)
    requires high <= 16 && m <= 16
    ensures ((y + RADIX * (x + RADIX * z)) / Pow2(16 - m)) % Pow2(high + m)
         == (x % Pow2(high)) * Pow2(m) + y / Pow2(16 - m)
  {
    hide Pow2;
    Pow2Sixteen();
    Pow2Add(m, 16 - m);
    Pow2Add(high, 16 - high);
    Pow2Add(high, m);
    Border(x, y, z, Pow2(16 - m), Pow2(m), Pow2(high), Pow2(16 - high), RADIX);
  }

  lemma Border(x: nat, y: nat, z: nat, a: nat, b: nat, h: nat, g: nat, radix: nat)
    requires a > 0 && b > 0 && h > 0 && g > 0 && y < radix && b * a == radix && h * g == radix
    ensures h * b > 0
    ensures ((y + radix * (x + radix * z)) / a) % (h * b) == (x % h) * b + y / a
  {
    var w := x + radix * z;
    CutBelow(y, w, a, b, radix);
    QuotientBelow(y, a, b);
    Gather(x, x / h, x % h, h, g, z);
    Squeeze(y / a, b, h, x / h + g * z, x % h, w);
  }

  lemma CutBelow(y: nat, w: nat, a: nat, b: nat, radix: nat)
    requires a > 0 && b * a == radix
    ensures (y + radix * w) / a == y / a + b * w
  {
    Gather(y, y / a, y % a, a, b, w);
    DivModUnique(y + radix * w, a, y / a + b * w, y % a);
  }

  lemma Gather(x: nat, k: nat, r: nat, a: nat, b: nat, w: nat)
    requires x == k * a + r
    ensures x + (b * a) * w == x + (a * b) * w == (k + b * w) * a + r
  {
    assert (b * a) * w == (b * w) * a;
  }

  lemma Regroup(a: nat, b: nat, c: nat)
    ensures (a * b) * c == a * (b * c) == b * (a * c)
  {
  }

  lemma QuotientBelow(x: nat, a: nat, b: nat)
    requires a > 0 && x < b * a
    ensures x / a < b
  {
    if x / a >= b {
      MulMonotone(b, x / a, a);
    }
  }

  lemma Squeeze(k: nat, b: nat, h: nat, t: nat, low: nat, w: nat)
    requires k < b && low < h && w == t * h + low
    ensures h * b > 0 && (k + b * w) % (h * b) == low * b + k
  {
    MulAtLeast(h, b);
    assert k + b * w == t * (h * b) + (low * b + k) by {
      assert b * (t * h + low) == t * (h * b) + low * b;
    }
    assert low * b + k < h * b by {
      MulMonotone(low, h - 1, b);
      assert (h - 1) * b == h * b - b;
    }
    DivModUnique(k + b * w, h * b, t, low * b + k);
  }

  /** The littlenums from the k-th on, and how many bits lie below them. */
  lemma CutAt(s: seq<Littlenum>, k: nat, c: nat)
    requires k < |s|
    ensures Nat(s) / Pow2(16 * k + c) == (s[k] + RADIX * Nat(s[k + 1..])) / Pow2(c)
  {
    hide Pow2, Nat, RPow;
    Pow2Add(16 * k, c);
    RPowIsPow2(k);
    DivDiv(Nat(s), RPow(k), Pow2(c));
    NatDrop(s, k);
    NatFrom(s, k);
  }

  lemma NatFrom(s: seq<Littlenum>, k: nat)
    requires k < |s|
    ensures Nat(s[k..]) == s[k] + RADIX * Nat(s[k + 1..])
  {
    assert s[k..][1..] == s[k + 1..];
  }

  lemma ReadInside(s: seq<Littlenum>, left: nat, bits: nat, n: nat)
    requires 1 <= left <= |s| && n <= bits <= 16
    ensures (s[left-1] / Pow2(bits - n)) % Pow2(n) == NextOf(Nat(s), 16 * |s|, 16 * (|s| - left) + 16 - bits, n)
  {
    hide Pow2;
    CutAt(s, left - 1, bits - n);
    InsideLow(s[left-1], Nat(s[left..]), bits - n, n);
    assert 16 * |s| - (16 * (|s| - left) + 16 - bits + n) == 16 * (left - 1) + (bits - n);
  }

  lemma ReadAcross(s: seq<Littlenum>, left: nat, bits: nat, m: nat)
    requires 2 <= left <= |s| && bits <= 16 && m <= 16
    ensures (s[left-1] % Pow2(bits)) * Pow2(m) + s[left-2] / Pow2(16 - m)
      == NextOf(Nat(s), 16 * |s|, 16 * (|s| - left) + 16 - bits, bits + m)
  {
    hide Pow2;
    CutAt(s, left - 2, 16 - m);
    assert s[left-1..][1..] == s[left..];
    AcrossBorder(s[left-1], s[left-2], Nat(s[left..]), bits, m);
    assert 16 * |s| - (16 * (|s| - left) + 16 - bits + (bits + m)) == 16 * (left - 2) + (16 - m);
  }

  lemma ReadLast(s: seq<Littlenum>, bits: nat, m: nat)
    requires s != [] && bits <= 16
    ensures (s[0] % Pow2(bits)) * Pow2(m) == NextOf(Nat(s), 16 * |s|, 16 * (|s| - 1) + 16 - bits, bits + m)
  {
    hide Pow2;
    var v := Nat(s);
    LowBits(s, bits);
    Pow2Add(bits, m);
    Pow2Zero();
    assert TopBits(v, 16 * |s|, 16 * |s| + m) == v * Pow2(m);
    hide Nat, TopBits;
    Squeeze(0, Pow2(m), Pow2(bits), v / Pow2(bits), v % Pow2(bits), v);
  }

  lemma LowBits(s: seq<Littlenum>, bits: nat)
    requires s != [] && bits <= 16
    ensures Nat(s) % Pow2(bits) == s[0] % Pow2(bits)
  {
    hide Pow2;
    Pow2Zero();
    InsideLow(s[0], Nat(s[1..]), 0, bits);
  }

  lemma ReadNothing(v: nat, bits: nat, pos: nat, n: nat)
    requires pos >= bits
    ensures NextOf(v, bits, pos, n) == 0
  {
    hide Pow2;
    TopBitsStep(v, bits, pos, n);
    Pow2Zero();
    if pos + n > bits {
      Pow2Add(pos - bits, n);
      assert v * (Pow2(pos - bits) * Pow2(n)) == (v * Pow2(pos - bits)) * Pow2(n);
      ModOfMultiple(v * Pow2(pos - bits), Pow2(n));
    } else {
      assert n == 0;
    }
  }

  /** A number that is its own last bit. */
  lemma ReadLoneBit(v: nat, bits: nat, n: nat)
    requires v <= 1 && bits > 0
    ensures NextOf(v, bits, bits - 1, n) == if n == 0 then 0 else v * Pow2(n - 1)
  {
    Pow2Zero();
    if n > 0 {
      Pow2Twice(n - 1);
      LastBit(v, bits, n);
      hide Pow2, TopBits;
      DivModUnique(v * Pow2(n - 1), Pow2(n), 0, v * Pow2(n - 1));
    }
  }

  lemma LastBit(v: nat, bits: nat, n: nat)
    requires n > 0 && bits > 0
    ensures TopBits(v, bits, bits - 1 + n) == v * Pow2(n - 1)
  {
    Pow2Zero();
    hide Pow2;
    if n == 1 {
      assert v / 1 == v * 1;
    }
  }

  // ---------------------------------------------------------------- the reader

  /** The static variables of the bit reader. */
  class Reader {
    const low: array<Littlenum>
    const length: nat            // the littlenums in use
    var bitsLeft: nat            // bits_left_in_littlenum
    var littlenumsLeft: nat
    var pointer: nat             // littlenum_pointer, as an index
    ghost var pos: nat           // how many bits have been read
    ghost var strayed: bool      // the very last bit was put back

    ghost predicate Valid()
      reads this
    {
      && 0 < length <= low.Length && littlenumsLeft <= length
      && (littlenumsLeft == 0 ==> pos >= 16 * length)
      && if strayed then
           && low.Length > 1 && pointer == 1
           && (littlenumsLeft > 0 ==> littlenumsLeft == 1 && bitsLeft == 1 && pos == 16 * length - 1)
         else
           && (littlenumsLeft > 0 ==> pointer == littlenumsLeft - 1 && 1 <= bitsLeft <= 16)
           && (littlenumsLeft > 0 ==> pos == 16 * (length - littlenumsLeft) + 16 - bitsLeft)
           && (littlenumsLeft == 0 ==> pointer == 0)
    }

    /** The number being read: once strayed, the lowest bit of the wrong littlenum. */
    ghost function Value(): nat
      requires Valid()
      reads this, low
    {
      if strayed then low[1] % 2 else Nat(low[..length])
    }

    constructor (low: array<Littlenum>, length: nat)
      requires 0 < length <= low.Length
      ensures fresh(this) && Valid() && this.low == low && this.length == length && pos == 0 && !strayed
    {
      this.low, this.length := low, length;
      bitsLeft, littlenumsLeft, pointer, pos, strayed := 16, length, length - 1, 0, false;
    }

    /** next_bits: whatever was read so far, the next n bits of the number. */
    method NextBits(n: nat) returns (value: nat)
      requires Valid() && n <= 16
      modifies this
      ensures Valid() && strayed == old(strayed) && pos == old(pos) + n
      ensures value < Pow2(n) && value == NextOf(Value(), 16 * length, old(pos), n)
    {
      hide Pow2, NextOf, Nat;
      ghost var s := low[..length];
      if littlenumsLeft == 0 {
        ReadNothing(Value(), 16 * length, pos, n);
        value := 0;
      } else if n >= bitsLeft {
        var m := n - bitsLeft;
        ghost var high := low[pointer] % Pow2(bitsLeft);
        value := low[pointer] % Pow2(bitsLeft) * Pow2(m);
        Joined(high, 0, bitsLeft, m);
        if littlenumsLeft == 1 {
          if strayed {
            Pow2One();
            ReadLoneBit(Value(), 16 * length, n);
          } else {
            ReadLast(s, bitsLeft, m);
          }
          littlenumsLeft := 0;
        } else {
          ReadAcross(s, littlenumsLeft, bitsLeft, m);
          SmallQuotient(low[pointer - 1], m);
          Joined(high, low[pointer - 1] / Pow2(16 - m) % Pow2(m), bitsLeft, m);
          littlenumsLeft := littlenumsLeft - 1;
          bitsLeft := 16 - m;
          pointer := pointer - 1;
          value := value + low[pointer] / Pow2(bitsLeft) % Pow2(m);
        }
      } else {
        if strayed {
          Pow2Zero();
          ReadLoneBit(Value(), 16 * length, n);
        } else {
          ReadInside(s, littlenumsLeft, bitsLeft, n);
        }
        bitsLeft := bitsLeft - n;
        value := low[pointer] / Pow2(bitsLeft) % Pow2(n);
      }
      pos := pos + n;
    }

    /** unget_bits(1): right unless the last bit of all has just been read, when the pointer goes one littlenum too
        high, and it is the lowest bit of that one that will be read again. */
    method UngetBit()
      requires Valid() && !strayed && 0 < pos <= 16 * length && low.Length > 1
      modifies this
      ensures Valid() && pos == old(pos) - 1
      ensures strayed == (old(pos) == 16 * length)
    {
      strayed := littlenumsLeft == 0;
      if littlenumsLeft == 0 {
        pointer := pointer + 1;
        littlenumsLeft := littlenumsLeft + 1;
        bitsLeft := 1;
      } else if bitsLeft + 1 > 16 {
        bitsLeft := 1 - (16 - bitsLeft);
        pointer := pointer + 1;
        littlenumsLeft := littlenumsLeft + 1;
      } else {
        bitsLeft := bitsLeft + 1;
      }
      pos := pos - 1;
    }
  }

  lemma Joined(high: nat, rest: nat, bits: nat, m: nat)
    requires high < Pow2(bits) && rest < Pow2(m)
    ensures high * Pow2(m) + rest < Pow2(bits + m)
  {
    hide Pow2;
    Pow2Add(bits, m);
    MulMonotone(high, Pow2(bits) - 1, Pow2(m));
    assert (Pow2(bits) - 1) * Pow2(m) == Pow2(bits) * Pow2(m) - Pow2(m);
  }

  lemma SmallQuotient(x: Littlenum, m: nat)
    requires m <= 16
    ensures x / Pow2(16 - m) % Pow2(m) == x / Pow2(16 - m)
  {
    hide Pow2;
    Pow2Sixteen();
    Pow2Add(m, 16 - m);
    SmallShare(x, Pow2(16 - m), Pow2(m), RADIX);
  }

  lemma SmallShare(x: nat, a: nat, b: nat, radix: nat)
    requires a > 0 && x < radix && radix == b * a
    ensures b > 0 && (x / a) % b == x / a
  {
    QuotientBelow(x, a, b);
    DivModUnique(x / a, b, 0, x / a);
  }
}
