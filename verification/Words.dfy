/** Numbers written as 16-bit words, the highest first, as floating point formats are. */
module Words {
  import opened Arith
  import opened Bignum

  function Big(s: seq<Littlenum>): nat {
    if s == [] then 0 else Big(s[..|s|-1]) * RADIX + s[|s|-1]
  }

  lemma BigSnoc(s: seq<Littlenum>, x: Littlenum)
    ensures Big(s + [x]) == Big(s) * RADIX + x
  {
    assert (s + [x])[..|s|] == s;
  }

  lemma BigTake(s: seq<Littlenum>, k: nat)
    requires k < |s|
    ensures Big(s[..k + 1]) == Big(s[..k]) * RADIX + s[k]
  {
    assert s[..k + 1] == s[..k] + [s[k]];
    BigSnoc(s[..k], s[k]);
  }

  lemma {:induction false} BigUpdate(s: seq<Littlenum>, i: nat, x: Littlenum)
    requires i < |s|
    ensures Big(s[i := x]) == Big(s) + (x - s[i]) * RPow(|s| - 1 - i)
  {
    var n := |s| - 1;
    if i == n {
      assert s[i := x][..n] == s[..n];
    } else {
      assert s[i := x][..n] == s[..n][i := x];
      BigUpdate(s[..n], i, x);
      RPowStep(n - 1 - i);
      MulMove(x - s[i], RPow(n - 1 - i));
    }
  }

  lemma MulMove(d: int, p: nat)
    ensures (d * p) * RADIX == d * (RADIX * p)
  {
  }

  lemma {:induction false} BigBound(s: seq<Littlenum>)
    ensures Big(s) < RPow(|s|)
  {
    if s != [] {
      BigBound(s[..|s|-1]);
    }
  }

  /** The first word is what the number is in units of the others. */
  lemma {:induction false} BigFirst(s: seq<Littlenum>)
    requires s != []
    ensures Big(s) / RPow(|s| - 1) == s[0]
  {
    hide RPow;
    if |s| == 1 {
      assert s[..0] == [];
      assert RPow(0) == 1 by { RPowZero(); }
    } else {
      var t := s[..|s|-1];
      BigFirst(t);
      RPowStep(|s| - 2);
      var p := RPow(|s| - 2);
      var q, r := Big(t) / p, Big(t) % p;
      FirstStep(Big(t), p, s[|s|-1]);
    }
  }

  lemma FirstStep(t: nat, p: nat, x: Littlenum)
    requires p > 0
    ensures (t * RADIX + x) / (RADIX * p) == t / p
  {
    var q, r := t / p, t % p;
    assert t * RADIX + x == q * (RADIX * p) + (r * RADIX + x) by {
      assert t == q * p + r;
      MulMove(q, p);
    }
    DivModUnique(t * RADIX + x, RADIX * p, q, r * RADIX + x);
  }

  /** Adds one at the lowest of the first n words; a carry out of the highest is dropped. */
  method PropagateCarry(words: array<Littlenum>, n: nat)
    requires n <= words.Length
    modifies words
    ensures Big(words[..n]) == (old(Big(words[..n])) + 1) % RPow(n)
    ensures forall k :: n <= k < words.Length ==> words[k] == old(words[k])
  {
    hide RPow, Big;
    ghost var before := Big(words[..n]);
    var carry, i := 1, n - 1;
    RPowZero();
    while carry != 0 && i >= 0
      invariant -1 <= i < n && 0 <= carry <= 1
      invariant Big(words[..n]) + carry * RPow(n - 1 - i) == before + 1
      invariant forall k :: n <= k < words.Length ==> words[k] == old(words[k])
    {
      ghost var s := words[..n];
      var sum := words[i] + carry;
      ghost var x := sum % RADIX;
      BigUpdate(s, i, x);
      RPowStep(n - 1 - i);
      OneDigit(words[i], carry, RPow(n - 1 - i));
      words[i] := sum % RADIX;
      assert words[..n] == s[i := x];
      carry := sum / RADIX;
      i := i - 1;
    }
    BigBound(words[..n]);
    if carry == 0 {
      DivModUnique(before + 1, RPow(n), 0, Big(words[..n]));
    } else {
      DivModUnique(before + 1, RPow(n), 1, Big(words[..n]));
    }
  }

  lemma OneDigit(w: Littlenum, carry: nat, p: nat)
    requires carry == 1
    ensures var x, c := (w + carry) % RADIX, (w + carry) / RADIX;
      c <= 1 && (x - w) * p + c * (RADIX * p) == carry * p
  {
    if w + 1 == RADIX {
      assert (0 - w) * p == p - RADIX * p;
    }
  }
}
