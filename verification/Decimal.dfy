/** Decimal numerals in text, as the first half of atof_generic reads them (cctools/as/atof-generic.c). */
module Decimal {
  import opened Arith

  /** The character at p of a string that a NUL ends. */
  function At(text: string, p: nat): char {
    if p < |text| then text[p] else '\0'
  }

  predicate IsDigit(c: char) {
    '0' <= c <= '9'
  }

  function DigitOf(c: char): (d: nat)
    requires IsDigit(c)
    ensures d < 10
  {
    c as nat - '0' as nat
  }

  predicate AllDigits(s: string) {
    forall i :: 0 <= i < |s| ==> IsDigit(s[i])
  }

  predicate Zeros(s: string) {
    forall i :: 0 <= i < |s| ==> s[i] == '0'
  }

  function Ten(n: nat): (p: nat)
    ensures p >= 1
  {
    Pow(10, n)
  }

  /** The number that digits denote, the most significant first. */
  function DecimalNat(s: string): nat
    requires AllDigits(s)
  {
    if s == [] then 0 else DecimalNat(s[..|s|-1]) * 10 + DigitOf(s[|s|-1])
  }

  lemma {:induction false} DecimalConcat(a: string, b: string)
    requires AllDigits(a) && AllDigits(b)
    ensures DecimalNat(a + b) == DecimalNat(a) * Ten(|b|) + DecimalNat(b)
  {
    if b == [] {
      assert a + b == a;
    } else {
      var c := b[..|b|-1];
      assert (a + b)[..|a + b| - 1] == a + c;
      DecimalConcat(a, c);
      assert DecimalNat(b) == DecimalNat(c) * 10 + DigitOf(b[|b|-1]);
      assert DecimalNat(a + b) == DecimalNat(a + c) * 10 + DigitOf(b[|b|-1]);
      assert Ten(|b|) == 10 * Ten(|c|);
      hide DecimalNat, Ten;
      TenTimes(DecimalNat(a), Ten(|c|));
    }
  }

  lemma TenTimes(x: nat, t: nat)
    ensures (x * t) * 10 == x * (10 * t)
  {
    MulAssoc(x, t, 10);
  }

  lemma {:induction false} DecimalBound(s: string)
    requires AllDigits(s)
    ensures DecimalNat(s) < Ten(|s|)
  {
    if s != [] {
      DecimalBound(s[..|s|-1]);
    }
  }

  lemma {:induction false} DecimalZero(s: string)
    requires AllDigits(s)
    ensures DecimalNat(s) == 0 <==> Zeros(s)
  {
    if s != [] {
      DecimalZero(s[..|s|-1]);
      assert s == s[..|s|-1] + [s[|s|-1]];
    }
  }

  function DigitChar(d: nat): (c: char)
    requires d < 10
    ensures IsDigit(c) && DigitOf(c) == d
  {
    (d + '0' as nat) as char
  }

  function DecimalText(n: nat): string {
    if n < 10 then [DigitChar(n)] else DecimalText(n / 10) + [DigitChar(n % 10)]
  }

  lemma {:induction false} DecimalTextStart(n: nat)
    ensures DecimalText(n) != "" && AllDigits(DecimalText(n))
    ensures DecimalNat(DecimalText(n)) == n
    ensures n > 0 ==> DecimalText(n)[0] != '0'
  {
    if n >= 10 {
      DecimalTextStart(n / 10);
      assert DecimalText(n)[..|DecimalText(n)| - 1] == DecimalText(n / 10);
    } else {
      assert [DigitChar(n)][..0] == [];
    }
  }

  lemma {:induction false} DecimalTextLength(n: nat, k: nat)
    requires k > 0 && n < Ten(k)
    ensures |DecimalText(n)| <= k
  {
    if n >= 10 {
      assert Ten(k) == 10 * Ten(k - 1);
      DecimalTextLength(n / 10, k - 1);
    }
  }

  // ---------------------------------------------------------------- the numeral in the text

  /** Where a run of digits ends. */
  function RunEnd(text: string, p: nat): (q: nat)
    ensures p <= q && AllDigits(text[Clip(text, p)..Clip(text, q)])
    ensures !IsDigit(At(text, q))
    ensures p <= |text| ==> q <= |text|
    decreases |text| - p
  {
    if IsDigit(At(text, p)) then
      var q := RunEnd(text, p + 1);
      assert text[p..q] == [text[p]] + text[p + 1..q];
      q
    else p
  }

  function Clip(text: string, p: nat): (q: nat)
    ensures q <= |text|
  {
    if p <= |text| then p else |text|
  }

  function Slice(text: string, p: nat, q: nat): string
    requires p <= q
  {
    text[Clip(text, p)..Clip(text, q)]
  }

  /** A numeral: its sign, the digits before and after the mark, the exponent, and where it ends. */
  datatype Numeral = Numeral(negative: bool, whole: string, fraction: string, exponent: int, end: nat)

  /** All digits of a numeral denote this number, of units of 10^(exponent - |fraction|). */
  function Mantissa(n: Numeral): nat
    requires AllDigits(n.whole) && AllDigits(n.fraction)
  {
    DecimalNat(n.whole + n.fraction)
  }

  predicate OneOf(c: char, marks: string) {
    c != '\0' && c in marks
  }

  /** Marks that cannot be taken for digits. */
  predicate AreMarks(marks: string) {
    forall c :: c in marks ==> !IsDigit(c)
  }

  function SignEnd(text: string, p: nat): nat {
    if At(text, p) in {'+', '-'} then p + 1 else p
  }

  function FractionEnd(text: string, p: nat, marks: string): (q: nat)
    ensures p <= q
  {
    if OneOf(At(text, p), marks) then RunEnd(text, p + 1) else p
  }

  function ExponentAt(text: string, p: nat): int {
    var q := SignEnd(text, p);
    var x: int := DecimalNat(Slice(text, q, RunEnd(text, q)));
    if At(text, p) == '-' then -x else x
  }

  /** The numeral at p: as many digits as there are, a decimal mark and as many more, an exponent mark and
      a signed exponent. */
  function NumeralAt(text: string, p: nat, marks: string, exponentMarks: string): (n: Numeral)
    ensures AllDigits(n.whole) && AllDigits(n.fraction)
  {
    var start := SignEnd(text, p);
    var wholeEnd := RunEnd(text, start);
    var fractionEnd := FractionEnd(text, wholeEnd, marks);
    var whole := Slice(text, start, wholeEnd);
    var fraction := if fractionEnd == wholeEnd then "" else Slice(text, wholeEnd + 1, fractionEnd);
    if OneOf(At(text, fractionEnd), exponentMarks) then
      Numeral(At(text, p) == '-', whole, fraction, ExponentAt(text, fractionEnd + 1),
              RunEnd(text, SignEnd(text, fractionEnd + 1)))
    else
      Numeral(At(text, p) == '-', whole, fraction, 0, fractionEnd)
  }

  lemma NegativeNumeral(text: string, start: nat, marks: string, exponentMarks: string)
    ensures NumeralAt(text, start, marks, exponentMarks).negative <==> At(text, start) == '-'
  {
    hide RunEnd, FractionEnd, ExponentAt;
  }

  // ---------------------------------------------------------------- the digits that are used

  /** The digits of a numeral but for leading zeros before the mark and trailing zeros after it. */
  function Significant(n: Numeral, leading: nat, after: nat): string
    requires leading <= |n.whole| && after <= |n.fraction|
  {
    n.whole[leading..] + n.fraction[..after]
  }

  lemma DropDigits(n: Numeral, leading: nat, after: nat, used: nat)
    requires AllDigits(n.whole) && AllDigits(n.fraction)
    requires leading <= |n.whole| && after <= |n.fraction|
    requires Zeros(n.whole[..leading]) && Zeros(n.fraction[after..])
    requires used <= |Significant(n, leading, after)|
    ensures var s := Significant(n, leading, after);
      var dropped := |s| - used + (|n.fraction| - after);
      && DecimalNat(s[..used]) == Mantissa(n) / Ten(dropped)
      && (used == |s| ==> Mantissa(n) == DecimalNat(s) * Ten(dropped))
  {
    hide DecimalNat, Ten;
    var s := Significant(n, leading, after);
    var zeros := n.fraction[after..];
    assert n.whole + n.fraction == n.whole[..leading] + (s + zeros);
    DecimalConcat(n.whole[..leading], s + zeros);
    DecimalZero(n.whole[..leading]);
    assert s + zeros == s[..used] + (s[used..] + zeros);
    DecimalConcat(s[..used], s[used..] + zeros);
    DecimalBound(s[used..] + zeros);
    DivModUnique(Mantissa(n), Ten(|s| - used + |zeros|), DecimalNat(s[..used]), DecimalNat(s[used..] + zeros));
    if used == |s| {
      assert s[..used] == s && s[used..] + zeros == zeros;
      DecimalZero(zeros);
    }
  }
}
