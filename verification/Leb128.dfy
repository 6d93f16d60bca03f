/** Little-endian base 128 numbers: sizeof_leb128 and output_leb128 of cctools/as/read.c, and the
    decoding rules of section 7.6 and appendix C of DWARF 3. */
module Leb128 {
  import opened Arith
  import opened Wrappers

  newtype byte = n: int | 0 <= n < 256

  /** A number read off the front of a byte string, and the bytes after it. */
  datatype Decoded = Decoded(value: int, rest: seq<byte>)

  // ---------------------------------------------------------------- unsigned

  function Uleb(value: nat): (s: seq<byte>)
    ensures |s| >= 1
  {
    if value < 128 then [value as byte]
    else [(128 + value % 128) as byte] + Uleb(value / 128)
  }

  function ReadUleb(s: seq<byte>): (d: Option<Decoded>)
    ensures d.Some? ==> |d.value.rest| < |s| && d.value.value >= 0
  {
    if s == [] then None
    else if s[0] < 128 then Some(Decoded(s[0] as int, s[1..]))
    else match ReadUleb(s[1..])
      case None => None
      case Some(d) => Some(Decoded(s[0] as int - 128 + 128 * d.value, d.rest))
  }

  lemma {:induction false} UlebRoundTrip(value: nat, rest: seq<byte>)
    ensures ReadUleb(Uleb(value) + rest) == Some(Decoded(value, rest))
  {
    var s := Uleb(value) + rest;
    if value < 128 {
      assert s[1..] == rest;
    } else {
      assert s[1..] == Uleb(value / 128) + rest;
      UlebRoundTrip(value / 128, rest);
    }
  }

  /** Seven bits of a number in two's complement. */
  function Group(value: int, k: nat): int {
    value / Pow(128, k) % 128
  }

  /** Dividing by 128 once and then k times is dividing k + 1 times. */
  lemma GroupLater(value: int, k: nat)
    ensures Group(value / 128, k) == Group(value, k + 1) && Group(value, 0) == value % 128
  {
    PowStep(128, k);
    hide Pow;
    var p := Pow(128, k);
    var q, r := value / 128 / p, value / 128 % p;
    assert value / 128 == q * p + r;
    assert value == q * (128 * p) + (128 * r + value % 128);
    DivModUnique(value, 128 * p, q, 128 * r + value % 128);
  }

  /** The bytes of an unsigned number are its groups of seven bits, the lowest first, with the top bit set in all but the last;
      and there are no more of them than it needs. */
  lemma {:induction false} UlebGroups(value: nat)
    ensures var s := Uleb(value);
      && (forall k :: 0 <= k < |s| ==> s[k] as int == Group(value, k) + if k + 1 < |s| then 128 else 0)
      && value < Pow(128, |s|) && (|s| > 1 ==> value >= Pow(128, |s| - 1))
  {
    hide Pow, Group;
    var s := Uleb(value);
    PowZero();
    GroupLater(value, 0);
    if value >= 128 {
      var later := value / 128;
      UlebGroups(later);
      forall k | 0 <= k < |s| ensures s[k] as int == Group(value, k) + if k + 1 < |s| then 128 else 0 {
        if k > 0 {
          GroupLater(value, k - 1);
        }
      }
      ScaledGroups(value, |s| - 1);
    }
  }

  lemma ScaledGroups(value: nat, n: nat)
    requires n >= 1 && value >= 128 && value / 128 < Pow(128, n) && (n > 1 ==> value / 128 >= Pow(128, n - 1))
    ensures Pow(128, n) <= value < Pow(128, n + 1)
  {
    PowZero();
    PowStep(128, n);
    PowStep(128, n - 1);
    hide Pow;
    Scaled(value, Pow(128, n), Pow(128, n - 1), n > 1);
  }

  lemma PowZero()
    ensures Pow(128, 0) == 1 && Pow(128, 1) == 128
  {
    PowStep(128, 0);
  }

  lemma Scaled(value: nat, high: nat, low: nat, bounded: bool)
    requires value / 128 < high && (bounded ==> value / 128 >= low)
    ensures value < 128 * high && (bounded ==> value >= 128 * low)
  {
  }

  /** A larger number never takes fewer bytes. */
  lemma {:induction false} UlebLengthMonotone(small: nat, large: nat)
    requires small <= large
    ensures |Uleb(small)| <= |Uleb(large)|
  {
    if small >= 128 {
      UlebLengthMonotone(small / 128, large / 128);
    }
  }

  method SizeofUleb(value: nat) returns (size: nat)
    ensures size == |Uleb(value)|
  {
    var v := value;
    size := 1;
    v := v / 128;
    while v != 0
      invariant |Uleb(value)| == if v == 0 then size else size + |Uleb(v)|
    {
      v := v / 128;
      size := size + 1;
    }
  }

  /** Writes the number at the given place and returns the place after it. */
  method OutputUleb(p: array<byte>, at: nat, value: nat) returns (next: nat)
    requires at + |Uleb(value)| <= p.Length
    modifies p
    ensures next == at + |Uleb(value)|
    ensures p[at..next] == Uleb(value)
    ensures forall k :: 0 <= k < p.Length && !(at <= k < next) ==> p[k] == old(p[k])
  {
    var v := value;
    next := at;
    var more := true;
    while more
      invariant at <= next <= at + |Uleb(value)|
      invariant p[at..next] == Uleb(value)[..next - at]
      invariant forall k :: 0 <= k < p.Length && !(at <= k < next) ==> p[k] == old(p[k])
      invariant more ==> Uleb(value)[next - at..] == Uleb(v)
      invariant !more ==> next == at + |Uleb(value)|
      decreases more, v
    {
      var b := v % 128;
      ghost var left := Uleb(v);
      v := v / 128;
      more := v != 0;
      if more {
        b := b + 128;
      }
      assert left[0] == b as byte && left[1..] == if more then Uleb(v) else [];
      p[next] := b as byte;
      next := next + 1;
    }
  }

  // ---------------------------------------------------------------- signed

  /** Is this the last group of a signed number: does the rest only repeat the group's sign bit? */
  predicate LastGroup(group: int, rest: int) {
    (rest == 0 && group < 64) || (rest == -1 && group >= 64)
  }

  function Sleb(value: int): (s: seq<byte>)
    ensures |s| >= 1
    decreases if value < 0 then -value - 1 else value
  {
    var group, rest := value % 128, value / 128;
    if LastGroup(group, rest) then [group as byte]
    else [(128 + group) as byte] + Sleb(rest)
  }

  function ReadSleb(s: seq<byte>): (d: Option<Decoded>)
    ensures d.Some? ==> |d.value.rest| < |s|
  {
    if s == [] then None
    else if s[0] < 64 then Some(Decoded(s[0] as int, s[1..]))
    else if s[0] < 128 then Some(Decoded(s[0] as int - 128, s[1..]))
    else match ReadSleb(s[1..])
      case None => None
      case Some(d) => Some(Decoded(s[0] as int - 128 + 128 * d.value, d.rest))
  }

  /** The same for a signed number, whose last group has the sign in its highest bit. */
  lemma {:induction false} SlebGroups(value: int)
    ensures var s := Sleb(value);
      && (forall k :: 0 <= k < |s| ==> s[k] as int == Group(value, k) + if k + 1 < |s| then 128 else 0)
      && -64 * Pow(128, |s| - 1) <= value < 64 * Pow(128, |s| - 1)
      && (|s| > 1 ==> !(-64 * Pow(128, |s| - 2) <= value < 64 * Pow(128, |s| - 2)))
    decreases if value < 0 then -value - 1 else value
  {
    hide Pow, Group;
    var s, rest := Sleb(value), value / 128;
    PowZero();
    GroupLater(value, 0);
    if !LastGroup(value % 128, rest) {
      SlebGroups(rest);
      forall k | 0 <= k < |s| ensures s[k] as int == Group(value, k) + if k + 1 < |s| then 128 else 0 {
        if k > 0 {
          GroupLater(value, k - 1);
        }
      }
      SignedGroups(value, |s| - 1);
    }
  }

  lemma SignedGroups(value: int, n: nat)
    requires n >= 1 && -64 * Pow(128, n - 1) <= value / 128 < 64 * Pow(128, n - 1) && !LastGroup(value % 128, value / 128)
    requires n > 1 ==> !(-64 * Pow(128, n - 2) <= value / 128 < 64 * Pow(128, n - 2))
    ensures -64 * Pow(128, n) <= value < 64 * Pow(128, n) && !(-64 * Pow(128, n - 1) <= value < 64 * Pow(128, n - 1))
  {
    PowZero();
    PowStep(128, n - 1);
    if n > 1 {
      PowStep(128, n - 2);
    }
    hide Pow;
  }

  lemma {:induction false} SlebRoundTrip(value: int, rest: seq<byte>)
    ensures ReadSleb(Sleb(value) + rest) == Some(Decoded(value, rest))
    decreases if value < 0 then -value - 1 else value
  {
    var s := Sleb(value) + rest;
    if LastGroup(value % 128, value / 128) {
      assert s[1..] == rest;
    } else {
      assert s[1..] == Sleb(value / 128) + rest;
      SlebRoundTrip(value / 128, rest);
    }
  }

  method SizeofSleb(value: int) returns (size: nat)
    ensures size == |Sleb(value)|
  {
    var v := value;
    var group := v % 128;
    v := v / 128;
    size := 1;
    while !LastGroup(group, v)
      invariant |Sleb(value)| == if LastGroup(group, v) then size else size + |Sleb(v)|
      decreases !LastGroup(group, v), if v < 0 then -v - 1 else v
    {
      group := v % 128;
      v := v / 128;
      size := size + 1;
    }
  }

  method OutputSleb(p: array<byte>, at: nat, value: int) returns (next: nat)
    requires at + |Sleb(value)| <= p.Length
    modifies p
    ensures next == at + |Sleb(value)|
    ensures p[at..next] == Sleb(value)
    ensures forall k :: 0 <= k < p.Length && !(at <= k < next) ==> p[k] == old(p[k])
  {
    var v := value;
    next := at;
    var more := true;
    while more
      invariant at <= next <= at + |Sleb(value)|
      invariant p[at..next] == Sleb(value)[..next - at]
      invariant forall k :: 0 <= k < p.Length && !(at <= k < next) ==> p[k] == old(p[k])
      invariant more ==> Sleb(value)[next - at..] == Sleb(v)
      invariant !more ==> next == at + |Sleb(value)|
      decreases more, if v < 0 then -v - 1 else v
    {
      var b := v % 128;
      ghost var left := Sleb(v);
      v := v / 128;
      more := !LastGroup(b, v);
      assert left[0] == (if more then b + 128 else b) as byte && left[1..] == if more then Sleb(v) else [];
      if more {
        b := b + 128;
      }
      p[next] := b as byte;
      next := next + 1;
    }
  }
}
