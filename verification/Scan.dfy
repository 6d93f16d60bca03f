/** The scan of atof_generic (cctools/as/atof-generic.c): digits, decimal mark and exponent are told apart. */
module Scan {
  import opened Decimal

  lemma RunStep(text: string, p: nat)
    ensures RunEnd(text, p) == if p < |text| && IsDigit(text[p]) then RunEnd(text, p + 1) else p
  {
  }

  /** Steps over the digits before the mark; leading zeros are not counted. */
  method ScanWhole(text: string, start: nat, marks: string, exponentMarks: string)
    returns (first: nat, before: nat, p: nat, seen: bool)
    requires start <= |text| && AreMarks(marks) && AreMarks(exponentMarks) && '\0' !in text
    ensures p == RunEnd(text, start) <= |text| && start <= first <= p && before == p - first
    ensures Zeros(text[start..first]) && (seen <==> before > 0) && (before > 0 ==> text[first] != '0')
  {
    hide RunEnd;
    first, before, p, seen := start, 0, start, false;
    while p < |text| && !OneOf(text[p], marks) && !OneOf(text[p], exponentMarks)
      invariant start <= first <= p <= |text| && RunEnd(text, p) == RunEnd(text, start)
      invariant before == p - first && (seen <==> before > 0) && (before > 0 ==> text[first] != '0')
      invariant Zeros(text[start..first])
    {
      if !IsDigit(text[p]) {
        break;
      }
      RunStep(text, p);
      assert text[start..p + 1] == text[start..p] + [text[p]];
      if seen || text[p] > '0' {
        before := before + 1;
        seen := true;
      } else {
        first := first + 1;
      }
      p := p + 1;
    }
  }

  /** Steps over the digits after the mark. They are all forgotten when another character ends them
      and none was significant. */
  method ScanFraction(text: string, start: nat, exponentMarks: string, seenBefore: bool) returns (after: nat, p: nat)
    requires start <= |text| && AreMarks(exponentMarks) && '\0' !in text
    ensures p == RunEnd(text, start) <= |text|
    ensures after == p - start || (after == 0 && Zeros(text[start..p]))
  {
    hide RunEnd;
    after, p := 0, start;
    var seen := seenBefore;
    while p < |text| && !OneOf(text[p], exponentMarks)
      invariant start <= p <= |text| && RunEnd(text, p) == RunEnd(text, start)
      invariant after == p - start
      invariant seen || Zeros(text[start..p])
    {
      if !IsDigit(text[p]) {
        if !seen {
          after := 0;
        }
        break;
      }
      RunStep(text, p);
      assert text[start..p + 1] == text[start..p] + [text[p]];
      after := after + 1;
      if text[p] > '0' {
        seen := true;
      }
      p := p + 1;
    }
  }

  method ScanDigits(text: string, start: nat) returns (value: nat, p: nat)
    requires start <= |text| && '\0' !in text
    ensures p == RunEnd(text, start) <= |text| && value == DecimalNat(text[start..p])
  {
    hide RunEnd, DecimalNat;
    p, value := start, 0;
    DecimalZero("");
    assert text[start..start] == "";
    while p < |text| && IsDigit(text[p])
      invariant start <= p <= |text| && RunEnd(text, p) == RunEnd(text, start)
      invariant AllDigits(text[start..p]) && value == DecimalNat(text[start..p])
    {
      RunStep(text, p);
      assert text[start..p + 1] == text[start..p] + [text[p]];
      DecimalSnoc(text[start..p], text[p]);
      value := value * 10 + DigitOf(text[p]);
      p := p + 1;
    }
    RunStep(text, p);
  }

  lemma DecimalSnoc(s: string, c: char)
    requires AllDigits(s) && IsDigit(c)
    ensures DecimalNat(s + [c]) == DecimalNat(s) * 10 + DigitOf(c)
  {
    assert (s + [c])[..|s|] == s;
  }

  method ScanExponent(text: string, start: nat) returns (exponent: int, p: nat)
    requires start <= |text| && '\0' !in text
    ensures exponent == ExponentAt(text, start) && p == RunEnd(text, SignEnd(text, start)) <= |text|
  {
    hide RunEnd, DecimalNat;
    p := start;
    var negative := false;
    if p < |text| && text[p] in {'+', '-'} {
      negative := text[p] == '-';
      p := p + 1;
    }
    ghost var from := p;
    exponent, p := ScanDigits(text, p);
    assert text[from..p] == Slice(text, from, p);
    if negative {
      exponent := -exponent;
    }
  }

  /** Trailing zeros after the mark are not digits to be used. */
  method RetractZeros(text: string, start: nat, count: nat) returns (after: nat)
    requires start + count <= |text|
    ensures after <= count && Zeros(text[start + after..start + count])
    ensures after > 0 ==> text[start + after - 1] != '0'
  {
    after := count;
    while after > 0 && text[start + after - 1] == '0'
      invariant after <= count && Zeros(text[start + after..start + count])
    {
      assert text[start + after - 1..start + count] == [text[start + after - 1]] + text[start + after..start + count];
      after := after - 1;
    }
  }

  /** Digits before the mark from first on, digits after it, and where they end. */
  ghost predicate MantissaAt(text: string, start: nat, marks: string, first: nat, before: nat, after: nat, p: nat) {
    && start <= first && first + before == RunEnd(text, start) <= |text|
    && Zeros(text[start..first]) && (before > 0 ==> text[first] != '0')
    && p == FractionEnd(text, RunEnd(text, start), marks) <= |text|
    && (p == first + before ==> after == 0)
    && (p > first + before ==> first + before + 1 + after <= p && !IsDigit(text[first + before]))
    && (p > first + before ==> Zeros(text[first + before + 1 + after..p]))
    && (p > first + before && after > 0 ==> text[first + before + after] != '0')
  }

  /** Finds the digits before and after the mark, and where they end. */
  method ScanMantissa(text: string, start: nat, marks: string, exponentMarks: string)
    returns (first: nat, before: nat, after: nat, p: nat)
    requires start <= |text| && AreMarks(marks) && AreMarks(exponentMarks) && '\0' !in text
    ensures MantissaAt(text, start, marks, first, before, after, p)
    ensures p <= |text| && p == FractionEnd(text, RunEnd(text, start), marks)
  {
    hide RunEnd, DecimalNat;
    var seen;
    first, before, p, seen := ScanWhole(text, start, marks, exponentMarks);
    after := 0;
    if p < |text| && OneOf(text[p], marks) {
      var from := p + 1;
      after, p := ScanFraction(text, from, exponentMarks, seen);
      ghost var all := text[from..p];
      var kept := RetractZeros(text, from, after);
      assert Zeros(text[from + kept..p]) by {
        assert text[from + kept..p] == all[kept..];
      }
      after := kept;
    }
  }

  /** The numeral at start, as the places of its significant digits. */
  method ScanNumber(text: string, start: nat, marks: string, exponentMarks: string)
    returns (first: nat, before: nat, after: nat, exponent: int, p: nat)
    requires start <= |text| && AreMarks(marks) && AreMarks(exponentMarks) && '\0' !in text
    ensures p <= |text| && IsScanOf(text, start, marks, exponentMarks, first, before, after, exponent, p)
  {
    hide RunEnd, DecimalNat, MantissaAt, AreDigitsOf;
    var from := start;
    if from < |text| && text[from] in {'+', '-'} {
      from := from + 1;
    }
    first, before, after, p := ScanMantissa(text, from, marks, exponentMarks);
    NumeralParts(text, start, marks, exponentMarks, first, before, after, p);
    exponent := 0;
    if p < |text| && OneOf(text[p], exponentMarks) {
      exponent, p := ScanExponent(text, p + 1);
    }
  }

  /** Where the digits of the numeral at start lie. */
  ghost predicate IsScanOf(text: string, start: nat, marks: string, exponentMarks: string,
                           first: nat, before: nat, after: nat, exponent: int, end: nat)
  {
    var n := NumeralAt(text, start, marks, exponentMarks);
    && exponent == n.exponent && end == n.end
    && AreDigitsOf(n.whole, n.fraction, text, SignEnd(text, start), first, before, after)
  }

  /** But for zeros at the start of the whole part and at the end of the fraction, the digits are those
      of the text: before of them from first on, a mark, and after more. */
  ghost predicate AreDigitsOf(whole: string, fraction: string, text: string, start: nat, first: nat, before: nat, after: nat) {
    && start <= first && first + before <= |text|
    && first - start <= |whole| && after <= |fraction|
    && Zeros(whole[..first - start]) && whole[first - start..] == text[first..first + before]
    && (before > 0 ==> text[first] != '0')
    && Zeros(fraction[after..]) && (after > 0 ==> fraction[after - 1] != '0')
    && (after > 0 ==> first + before + 1 + after <= |text| && !IsDigit(text[first + before]))
    && (after > 0 ==> fraction[..after] == text[first + before + 1..first + before + 1 + after])
  }

  lemma NumeralParts(text: string, start: nat, marks: string, exponentMarks: string,
                     first: nat, before: nat, after: nat, p: nat)
    requires MantissaAt(text, SignEnd(text, start), marks, first, before, after, p)
    ensures var n := NumeralAt(text, start, marks, exponentMarks);
      AreDigitsOf(n.whole, n.fraction, text, SignEnd(text, start), first, before, after)
  {
    hide RunEnd, DecimalNat, ExponentAt, FractionEnd, AreDigitsOf;
    var n := NumeralAt(text, start, marks, exponentMarks);
    var from := SignEnd(text, start);
    assert n.whole == text[from..first + before];
    assert n.fraction == if p == first + before then "" else text[first + before + 1..p];
    hide NumeralAt;
    PartsOfText(n.whole, n.fraction, text, from, first, before, after, p);
  }

  lemma PartsOfText(whole: string, fraction: string, text: string, start: nat, first: nat, before: nat, after: nat, p: nat)
    requires start <= first && first + before <= p <= |text|
    requires Zeros(text[start..first]) && (before > 0 ==> text[first] != '0')
    requires p == first + before ==> after == 0
    requires p > first + before ==> first + before + 1 + after <= p && !IsDigit(text[first + before])
    requires p > first + before ==> Zeros(text[first + before + 1 + after..p])
    requires p > first + before && after > 0 ==> text[first + before + after] != '0'
    requires whole == text[start..first + before]
    requires fraction == if p == first + before then "" else text[first + before + 1..p]
    ensures AreDigitsOf(whole, fraction, text, start, first, before, after)
  {
    assert whole[..first - start] == text[start..first];
    assert whole[first - start..] == text[first..first + before];
    if p > first + before {
      assert fraction[after..] == text[first + before + 1 + after..p];
      assert fraction[..after] == text[first + before + 1..first + before + 1 + after];
    }
  }
}
