/** Numerals as they are written, and what atof_generic and atof_ieee make of the text (cctools/as/atof-generic.c,
    cctools/as/atof-ieee.c). */
module NumeralText {
  import opened Arith
  import opened Bignum
  import opened Decimal
  import opened DecimalFlonum
  import opened DecimalToIeee
  import opened Encoding
  import opened Ieee754
  import opened IeeeWords
  import opened PowersOfTen
  import opened ReadingAccuracy
  import opened SafeDigits
  import opened Wrappers

  // ---------------------------------------------------------------- writing

  datatype Sign = Unsigned | Plus | Minus

  /** Digits that a mark stands before. */
  datatype Marked = Marked(mark: char, sign: Sign, digits: string)

  /** A numeral as it is written: a sign or none, digits, a mark and more digits, an exponent mark and a signed exponent. Each
      part may be missing. */
  datatype Written = Written(sign: Sign, whole: string, fraction: Option<Marked>, exponent: Option<Marked>)

  function SignText(s: Sign): string {
    match s
    case Unsigned => ""
    case Plus => "+"
    case Minus => "-"
  }

  function MarkedText(m: Option<Marked>): string {
    match m
    case None => ""
    case Some(Marked(mark, sign, digits)) => [mark] + SignText(sign) + digits
  }

  function Spelling(w: Written): string {
    SignText(w.sign) + w.whole + MarkedText(w.fraction) + MarkedText(w.exponent)
  }

  predicate IsMarked(m: Option<Marked>, marks: string) {
    m.Some? ==> m.value.mark in marks && m.value.mark != '\0' && AllDigits(m.value.digits)
  }

  /** The marks are those that are asked for; an exponent mark that could be a decimal mark comes after one. */
  predicate IsNumeral(w: Written, marks: string, exponentMarks: string) {
    && AllDigits(w.whole) && IsMarked(w.fraction, marks) && IsMarked(w.exponent, exponentMarks)
    && (w.fraction.Some? ==> w.fraction.value.sign.Unsigned?)
    && (w.fraction.None? && w.exponent.Some? ==> w.exponent.value.mark !in marks)
  }

  function FractionOf(w: Written): string {
    if w.fraction.Some? then w.fraction.value.digits else ""
  }

  /** The exponent that is meant: the number of its digits, negative after a minus sign. */
  function ExponentOf(w: Written): int
    requires w.exponent.Some? ==> AllDigits(w.exponent.value.digits)
  {
    match w.exponent
    case None => 0
    case Some(Marked(_, sign, digits)) => if sign.Minus? then -(DecimalNat(digits) as int) else DecimalNat(digits)
  }

  /** No sign follows where one could stand and none does. */
  predicate IsUnsigned(s: Sign, text: string, p: nat) {
    s.Unsigned? ==> At(text, p) !in {'+', '-'}
  }

  /** The numeral stands at start, and what follows does not go on with it. */
  predicate StandsAt(text: string, start: nat, w: Written, marks: string, exponentMarks: string) {
    var end := start + |Spelling(w)|;
    && end <= |text| && text[start..end] == Spelling(w)
    && !IsDigit(At(text, end))
    && (w.exponent.None? ==> !OneOf(At(text, end), exponentMarks))
    && (w.exponent.None? && w.fraction.None? ==> !OneOf(At(text, end), marks))
    && (w.whole == "" ==> IsUnsigned(w.sign, text, start))
    && (w.exponent.Some? && w.exponent.value.digits == "" ==> IsUnsigned(w.exponent.value.sign, text, end))
  }

  // ---------------------------------------------------------------- reading

  /** A run of digits from p on ends where they do. */
  lemma {:induction false} RunOf(text: string, p: nat, digits: string)
    requires AllDigits(digits) && p + |digits| <= |text| && text[p..p + |digits|] == digits
    requires !IsDigit(At(text, p + |digits|))
    ensures RunEnd(text, p) == p + |digits| && Slice(text, p, p + |digits|) == digits
    decreases |digits|
  {
    if digits != "" {
      assert text[p] == digits[0];
      assert text[p + 1..p + |digits|] == digits[1..];
      RunOf(text, p + 1, digits[1..]);
    }
  }

  lemma Parts(text: string, p: nat, a: string, b: string)
    requires p + |a + b| <= |text| && text[p..p + |a + b|] == a + b
    ensures text[p..p + |a|] == a && text[p + |a|..p + |a| + |b|] == b
    ensures a != "" ==> At(text, p) == a[0]
    ensures b != "" ==> At(text, p + |a|) == b[0]
  {
    var s := text[p..p + |a + b|];
    assert text[p..p + |a|] == s[..|a|] && text[p + |a|..p + |a| + |b|] == s[|a|..];
    assert a != "" ==> text[p] == s[0];
    assert b != "" ==> text[p + |a|] == s[|a|];
  }

  /** A sign or none. */
  lemma SignOf(text: string, p: nat, s: Sign, digits: string)
    requires AllDigits(digits) && p + |SignText(s)| + |digits| <= |text|
    requires text[p..p + |SignText(s) + digits|] == SignText(s) + digits
    requires digits == "" ==> IsUnsigned(s, text, p)
    ensures SignEnd(text, p) == p + |SignText(s)| && (At(text, p) == '-' <==> s.Minus?)
    ensures text[SignEnd(text, p)..SignEnd(text, p) + |digits|] == digits
  {
    Parts(text, p, SignText(s), digits);
  }

  lemma NoSign(s: Sign, text: string, p: nat)
    ensures s.Unsigned? ==> SignText(s) == ""
    ensures !s.Unsigned? ==> IsUnsigned(s, text, p)
  {
  }

  /** The exponent when the ends of its sign and of its digits are known. */
  lemma ExponentFrom(text: string, p: nat, q: nat, digits: string, end: nat)
    requires AllDigits(digits) && SignEnd(text, p) == q && RunEnd(text, q) == end && Slice(text, q, end) == digits
    ensures ExponentAt(text, p) == if At(text, p) == '-' then -(DecimalNat(digits) as int) else DecimalNat(digits)
  {
    hide RunEnd, DecimalNat, SignEnd, Slice;
  }

  lemma ExponentFound(text: string, p: nat, s: Sign, digits: string, end: nat)
    requires AllDigits(digits) && end == p + |SignText(s) + digits| <= |text| && text[p..end] == SignText(s) + digits
    requires !IsDigit(At(text, end)) && (digits == "" ==> IsUnsigned(s, text, end))
    ensures RunEnd(text, SignEnd(text, p)) == end
    ensures ExponentAt(text, p) == if s.Minus? then -(DecimalNat(digits) as int) else DecimalNat(digits)
  {
    hide RunEnd, DecimalNat, SignText, SignEnd, Slice, IsUnsigned, ExponentAt, AllDigits, IsDigit;
    NoSign(s, text, p);
    SignOf(text, p, s, digits);
    var q := SignEnd(text, p);
    assert q + |digits| == end;
    RunOf(text, q, digits);
    ExponentFrom(text, p, q, digits, end);
  }

  /** Where the parts of a numeral begin. */
  lemma PartsOf(text: string, start: nat, w: Written, marks: string, exponentMarks: string)
    requires StandsAt(text, start, w, marks, exponentMarks)
    ensures var a, b, c := start + |SignText(w.sign)| + |w.whole|, |MarkedText(w.fraction)|, |MarkedText(w.exponent)|;
      && a + b + c == start + |Spelling(w)| && a + b + c <= |text|
      && text[start..a] == SignText(w.sign) + w.whole && text[a..a + b] == MarkedText(w.fraction)
      && text[a + b..a + b + c] == MarkedText(w.exponent)
      && (b > 0 ==> At(text, a) == MarkedText(w.fraction)[0])
      && (c > 0 ==> At(text, a + b) == MarkedText(w.exponent)[0])
  {
    hide IsUnsigned, OneOf, SignText, MarkedText;
    var first := SignText(w.sign) + w.whole;
    Parts(text, start, first + MarkedText(w.fraction), MarkedText(w.exponent));
    Parts(text, start, first, MarkedText(w.fraction));
  }

  lemma MarkFound(text: string, p: nat, m: Marked, end: nat)
    requires p < |text| && end == p + |MarkedText(Some(m))| && end <= |text| && text[p..end] == MarkedText(Some(m))
    ensures At(text, p) == m.mark && p + 1 + |SignText(m.sign) + m.digits| == end
    ensures text[p + 1..end] == SignText(m.sign) + m.digits
  {
    assert [m.mark] + SignText(m.sign) + m.digits == [m.mark] + (SignText(m.sign) + m.digits);
    Parts(text, p, [m.mark], SignText(m.sign) + m.digits);
  }

  lemma FractionFound(text: string, p: nat, m: Option<Marked>, marks: string, end: nat)
    requires IsMarked(m, marks) && (m.Some? ==> m.value.sign.Unsigned?)
    requires end == p + |MarkedText(m)| && end <= |text| && text[p..end] == MarkedText(m) && !IsDigit(At(text, end))
    requires m.None? ==> !OneOf(At(text, p), marks)
    ensures FractionEnd(text, p, marks) == end
    ensures m.Some? ==> end > p && Slice(text, p + 1, end) == m.value.digits
  {
    hide RunEnd;
    if m.Some? {
      MarkFound(text, p, m.value, end);
      assert SignText(m.value.sign) + m.value.digits == m.value.digits;
      RunOf(text, p + 1, m.value.digits);
    }
  }

  /** The character after the digits of the whole part, and after those of the fraction, is no digit. */
  lemma PartsEnd(text: string, start: nat, w: Written, marks: string, exponentMarks: string)
    requires IsNumeral(w, marks, exponentMarks) && AreMarks(marks) && AreMarks(exponentMarks)
    requires StandsAt(text, start, w, marks, exponentMarks)
    ensures var a, b := start + |SignText(w.sign)| + |w.whole|, |MarkedText(w.fraction)|;
      && !IsDigit(At(text, a)) && !IsDigit(At(text, a + b))
      && (w.fraction.None? ==> !OneOf(At(text, a), marks))
      && (w.exponent.None? ==> !OneOf(At(text, a + b), exponentMarks))
  {
    PartsOf(text, start, w, marks, exponentMarks);
    hide Spelling, IsUnsigned;
  }

  /** What is read when the ends of the parts are known. */
  lemma NumeralFrom(text: string, start: nat, marks: string, exponentMarks: string, a: nat, b: nat, exponent: int, end: nat)
    requires RunEnd(text, SignEnd(text, start)) == a && FractionEnd(text, a, marks) == b
    requires if OneOf(At(text, b), exponentMarks) then
               exponent == ExponentAt(text, b + 1) && end == RunEnd(text, SignEnd(text, b + 1))
             else exponent == 0 && end == b
    ensures NumeralAt(text, start, marks, exponentMarks)
      == Numeral(At(text, start) == '-', Slice(text, SignEnd(text, start), a), if b == a then "" else Slice(text, a + 1, b), exponent, end)
  {
    hide RunEnd, FractionEnd, ExponentAt, Slice, OneOf;
  }

  lemma ExponentPart(text: string, p: nat, m: Marked, end: nat)
    requires AllDigits(m.digits) && p < |text| && end == p + |MarkedText(Some(m))| && end <= |text|
    requires text[p..end] == MarkedText(Some(m)) && !IsDigit(At(text, end)) && (m.digits == "" ==> IsUnsigned(m.sign, text, end))
    ensures At(text, p) == m.mark && RunEnd(text, SignEnd(text, p + 1)) == end
    ensures ExponentAt(text, p + 1) == if m.sign.Minus? then -(DecimalNat(m.digits) as int) else DecimalNat(m.digits)
  {
    hide RunEnd, DecimalNat, ExponentAt, IsUnsigned, SignText, MarkedText, SignEnd;
    MarkFound(text, p, m, end);
    ExponentFound(text, p + 1, m.sign, m.digits, end);
  }

  /** The exponent of a numeral, from where its mark stands or would stand. */
  lemma ExponentRead(text: string, start: nat, p: nat, w: Written, marks: string, exponentMarks: string)
    requires IsNumeral(w, marks, exponentMarks) && StandsAt(text, start, w, marks, exponentMarks)
    requires p == start + |SignText(w.sign)| + |w.whole| + |MarkedText(w.fraction)|
    ensures var end := start + |Spelling(w)|;
      if OneOf(At(text, p), exponentMarks) then
        ExponentOf(w) == ExponentAt(text, p + 1) && end == RunEnd(text, SignEnd(text, p + 1))
      else ExponentOf(w) == 0 && end == p
  {
    hide RunEnd, DecimalNat, ExponentAt, IsUnsigned, Spelling, SignText;
    PartsOf(text, start, w, marks, exponentMarks);
    if w.exponent.Some? {
      ExponentPart(text, p, w.exponent.value, start + |Spelling(w)|);
    }
  }

  /** The main result: the numeral read is the one written, with its sign, digits and signed exponent, and ends where it
      does. */
  lemma NumeralIsRead(text: string, start: nat, w: Written, marks: string, exponentMarks: string)
    requires IsNumeral(w, marks, exponentMarks) && AreMarks(marks) && AreMarks(exponentMarks)
    requires StandsAt(text, start, w, marks, exponentMarks)
    ensures NumeralAt(text, start, marks, exponentMarks)
      == Numeral(w.sign.Minus?, w.whole, FractionOf(w), ExponentOf(w), start + |Spelling(w)|)
  {
    PartsOf(text, start, w, marks, exponentMarks);
    PartsEnd(text, start, w, marks, exponentMarks);
    Starts(text, start, w, marks, exponentMarks);
    hide RunEnd, DecimalNat, FractionEnd, ExponentAt, IsUnsigned, Spelling, StandsAt, NumeralAt, ExponentOf, OneOf, Slice;
    var a := start + |SignText(w.sign)| + |w.whole|;
    var b, end := a + |MarkedText(w.fraction)|, start + |Spelling(w)|;
    RunOf(text, SignEnd(text, start), w.whole);
    FractionFound(text, a, w.fraction, marks, b);
    ExponentRead(text, start, b, w, marks, exponentMarks);
    NumeralFrom(text, start, marks, exponentMarks, a, b, ExponentOf(w), end);
  }

  lemma Starts(text: string, start: nat, w: Written, marks: string, exponentMarks: string)
    requires AllDigits(w.whole) && StandsAt(text, start, w, marks, exponentMarks)
    ensures SignEnd(text, start) == start + |SignText(w.sign)| && (At(text, start) == '-' <==> w.sign.Minus?)
    ensures SignEnd(text, start) + |w.whole| <= |text| && text[SignEnd(text, start)..SignEnd(text, start) + |w.whole|] == w.whole
  {
    PartsOf(text, start, w, marks, exponentMarks);
    hide Spelling;
    SignOf(text, start, w.sign, w.whole);
  }

  // ---------------------------------------------------------------- the words

  predicate HasDigits(w: Written) {
    AllDigits(w.whole) && AllDigits(FractionOf(w)) && (w.exponent.Some? ==> AllDigits(w.exponent.value.digits))
  }

  /** The numeral that is meant. */
  function Meant(w: Written, start: nat): (n: Numeral)
    requires HasDigits(w)
    ensures AllDigits(n.whole) && AllDigits(n.fraction) && AllDigits(w.whole + FractionOf(w))
  {
    Numeral(w.sign.Minus?, w.whole, FractionOf(w), ExponentOf(w), start + |Spelling(w)|)
  }

  /** The words hold what atof_ieee makes of the numeral that stands at start. */
  ghost predicate AreWordsOf(f: Format, capacity: nat, text: string, start: nat, w: Written, exponentMarks: string,
                             encoded: nat, end: nat)
  {
    && IsFOrD(f) && capacity > 2 && AreMarks(exponentMarks)
    && IsNumeral(w, ".", exponentMarks) && StandsAt(text, start, w, ".", exponentMarks)
    && (w.whole == "" && w.fraction.None? ==> At(text, start + |SignText(w.sign)|) !in {'n', 'N', 'i', 'I'})
    && AreWordsFor(text, start, exponentMarks, f, capacity, encoded, end)
  }

  function SignPart(f: Format, s: Sign): nat {
    if s.Minus? then SignBit(f) else 0
  }

  /** The flonum is a single bit that the format holds as a denormal. */
  predicate IsLoneBit(f: Format, r: Power) {
    var e := BiasedExponent(f, Nat(r.littlenums), r.exponent);
    Nat(r.littlenums) == 1 && f.fraction + e >= 0 && e <= 0
  }

  lemma FirstAfterSign(text: string, start: nat, w: Written, exponentMarks: string)
    requires IsNumeral(w, ".", exponentMarks) && StandsAt(text, start, w, ".", exponentMarks)
    requires w.whole == "" && w.fraction.None? ==> At(text, start + |SignText(w.sign)|) !in {'n', 'N', 'i', 'I'}
    ensures SignEnd(text, start) == start + |SignText(w.sign)| && (At(text, start) == '-' <==> w.sign.Minus?)
    ensures !IsNan(text, SignEnd(text, start)) && !IsInf(text, SignEnd(text, start))
  {
    PartsOf(text, start, w, ".", exponentMarks);
    Starts(text, start, w, ".", exponentMarks);
    hide Spelling;
    var p := start + |SignText(w.sign)|;
    if w.whole != "" {
      assert text[p] == text[p..p + |w.whole|][0];
    }
  }

  lemma WordsOf(f: Format, capacity: nat, text: string, start: nat, w: Written, exponentMarks: string, encoded: nat, end: nat)
    requires HasDigits(w) && capacity > 2
    requires AreWordsOf(f, capacity, text, start, w, exponentMarks, encoded, end)
    ensures end == start + |Spelling(w)|
    ensures var r := Reading(Meant(w, start), capacity);
      if r.overflow then encoded == SignPart(f, w.sign) + Infinity(f)
      else IsSomeEncodingOf(f, if w.sign.Minus? then '-' else '+', r.power.littlenums, r.power.exponent, encoded)
  {
    hide NumeralAt, Reading, IsNan, IsInf, IsInity, StandsAt, IsSomeEncodingOf, SignBit, Infinity, Spelling;
    FirstAfterSign(text, start, w, exponentMarks);
    NumeralIsRead(text, start, w, ".", exponentMarks);
  }

  /** A finite number on a right branch is encoded with its sign and its magnitude. */
  lemma EncodedOnRightBranch(f: Format, negative: bool, r: Power, encoded: nat)
    requires IsFOrD(f) && Nat(r.littlenums) > 0 && TakesRightBranch(f, r) && !IsLoneBit(f, r)
    requires IsSomeEncodingOf(f, if negative then '-' else '+', r.littlenums, r.exponent, encoded)
    ensures encoded == (if negative then SignBit(f) else 0) + MagnitudeOf(f, r)
  {
    hide Magnitude, BiasedExponent, EncodedFrom, SignBit, Rounded, Pow2, Nat, Encoded, IsRight, Infinity;
    var v, e := Nat(r.littlenums), BiasedExponent(f, Nat(r.littlenums), r.exponent);
    var above :| IsEncodingOf(f, if negative then '-' else '+', r.littlenums, r.exponent, above, encoded);
    LoneBitIsLostIff(f, negative, v, e, above);
    assert r.littlenums != [] by { NatOfNone(); }
    assert encoded == EncodedFrom(f, negative, v, e, above);
    RightIsSigned(f, negative, v, e);
  }

  lemma RightIsSigned(f: Format, negative: bool, v: nat, e: int)
    requires IsFOrD(f) && IsRight(f, v, e)
    ensures Encoded(f, negative, v, e) == (if negative then SignBit(f) else 0) + Magnitude(f, v, e)
  {
    hide Rounded, Magnitude, SignBit;
    assert Pow2(f.fraction) > 0;
  }

  lemma NatOfNone()
    ensures Nat([]) == 0
  {
  }

  lemma ShortIsNotLone(f: Format, r: Power)
    requires IsFOrD(f) && r.exponent >= 0
    ensures !IsLoneBit(f, r)
  {
    BiasIsPositive(f);
  }

  /** From the text to the words: a numeral with a mantissa below 2^32 and a decimal exponent up to 15 (up to 9 for a
      single) gives the nearest number of its sign, ties away from zero, and is read to its end. */
  lemma ShortTextIsNearest(f: Format, capacity: nat, text: string, start: nat, w: Written, exponentMarks: string,
                           encoded: nat, end: nat, a: nat, b: nat) returns (m: nat)
    requires IsFOrD(f) && HasDigits(w) && capacity >= 4 && IsShort(Meant(w, start), capacity)
    requires a - b == ExponentOf(w) - |FractionOf(w)|
    requires AreWordsOf(f, capacity, text, start, w, exponentMarks, encoded, end)
    ensures end == start + |Spelling(w)| && encoded == SignPart(f, w.sign) + m
    ensures NearestToDecimal(f, Mantissa(Meant(w, start)), a, b, m)
  {
    hide Reading, IsShort, NearestToDecimal, IsSomeEncodingOf, MagnitudeOf, TakesRightBranch, SignBit, Infinity, StandsAt, Spelling;
    hide UsedMantissa, UsedExponent, UsefulDigits, MaximumUsefulDigits, ExponentOf, DecimalNat, Nat, AreWordsFor, IsLoneBit;
    var n := Meant(w, start);
    var r := Reading(n, capacity);
    WordsOf(f, capacity, text, start, w, exponentMarks, encoded, end);
    ShortNumeralIsNearest(f, n, capacity, a, b);
    ShortReading(f, n, capacity);
    EncodedOnRightBranch(f, w.sign.Minus?, r.power, encoded);
    m := MagnitudeOf(f, r.power);
  }

  lemma ShortReading(f: Format, n: Numeral, capacity: nat)
    requires IsFOrD(f) && AllDigits(n.whole) && AllDigits(n.fraction) && capacity >= 4 && IsShort(n, capacity)
    ensures var r := Reading(n, capacity);
      !r.overflow && Nat(r.power.littlenums) > 0 && TakesRightBranch(f, r.power) && !IsLoneBit(f, r.power)
  {
    hide Reading, ReadsExactly, Mantissa, UsedMantissa, UsedExponent, UsefulDigits, MaximumUsefulDigits, Value, Ten, Pow2;
    hide TakesRightBranch, AllDigits, IsLoneBit, Nat;
    ShortNumeralsReadExactly(n, capacity);
    PositiveQuotient(n, capacity);
    ReadingValue(n, capacity);
    ReadingOverflows(n, capacity);
    FifteenDigits(UsedMantissa(n, capacity), UsedExponent(n, capacity));
    SmallIsRight(f, Reading(n, capacity).power);
    ShortIsNotLone(f, Reading(n, capacity).power);
    ValueIsPositive(Reading(n, capacity).power);
  }

  lemma ValueIsPositive(r: Power)
    requires r.exponent >= 0 && Value(r) > 0
    ensures Nat(r.littlenums) > 0
  {
  }

  /** The numeral can be read, loses nothing in wraps, and is encoded on a right branch, not as a lone bit. */
  predicate IsWellRead(f: Format, n: Numeral, capacity: nat)
    requires AllDigits(n.whole) && AllDigits(n.fraction)
  {
    && IsReadable(n, capacity) && (capacity == 6 ==> IsSafe(LittlenumsOf(UsedMantissa(n, capacity))))
    && TakesRightBranch(f, Reading(n, capacity).power) && !IsLoneBit(f, Reading(n, capacity).power)
  }

  /** From the text to the words: every numeral that can be read, and for a double has safe digits, gives a number of its sign
      than which no other is nearer to it by more than twice the error of the reading. */
  lemma TextIsAlmostNearest(f: Format, capacity: nat, text: string, start: nat, w: Written, exponentMarks: string,
                            encoded: nat, end: nat) returns (m: nat)
    requires IsFOrD(f) && HasDigits(w) && IsWellRead(f, Meant(w, start), capacity)
    requires AreWordsOf(f, capacity, text, start, w, exponentMarks, encoded, end)
    ensures end == start + |Spelling(w)| && encoded == SignPart(f, w.sign) + m
    ensures AlmostNearest(f, UnitsOf(f, Meant(w, start)), m, Slack(f, Meant(w, start), capacity))
  {
    hide Reading, AlmostNearest, IsSomeEncodingOf, MagnitudeOf, TakesRightBranch, SignBit, Infinity, StandsAt, Spelling, Slack;
    hide UsedMantissa, UsedExponent, UnitsOf, ExponentOf, DecimalNat, Nat, AreWordsFor, IsLoneBit, IsSafe, LittlenumsOf;
    var n := Meant(w, start);
    WordsOf(f, capacity, text, start, w, exponentMarks, encoded, end);
    NumeralIsAlmostNearest(f, n, capacity);
    ReadingIsPositive(n, capacity);
    ReadableIsNoOverflow(n, capacity);
    EncodedOnRightBranch(f, w.sign.Minus?, Reading(n, capacity).power, encoded);
    m := MagnitudeOf(f, Reading(n, capacity).power);
  }

  lemma ReadableIsNoOverflow(n: Numeral, capacity: nat)
    requires AllDigits(n.whole) && AllDigits(n.fraction) && IsReadable(n, capacity)
    ensures !Reading(n, capacity).overflow
  {
    hide Reading, UsedMantissa, UsedExponent, Mantissa;
    ReadingOverflows(n, capacity);
  }

  /** A decimal exponent of 2^11 or more in magnitude, of either sign, gives infinity. */
  lemma TextOverflows(f: Format, capacity: nat, text: string, start: nat, w: Written, exponentMarks: string,
                      encoded: nat, end: nat)
    requires HasDigits(w) && capacity > 2 && Mantissa(Meant(w, start)) != 0
    requires UsedExponent(Meant(w, start), capacity) >= 2048 || UsedExponent(Meant(w, start), capacity) <= -2048
    requires AreWordsOf(f, capacity, text, start, w, exponentMarks, encoded, end)
    ensures end == start + |Spelling(w)| && encoded == SignPart(f, w.sign) + Infinity(f)
  {
    hide Reading, IsSomeEncodingOf, SignBit, Infinity, StandsAt, Spelling, ExponentOf, DecimalNat, AreWordsFor, UsedExponent;
    WordsOf(f, capacity, text, start, w, exponentMarks, encoded, end);
    ReadingOverflows(Meant(w, start), capacity);
  }

  /** A numeral that is zero gives the zero of its sign. */
  lemma ZeroText(f: Format, capacity: nat, text: string, start: nat, w: Written, exponentMarks: string, encoded: nat, end: nat)
    requires HasDigits(w) && Mantissa(Meant(w, start)) == 0
    requires AreWordsOf(f, capacity, text, start, w, exponentMarks, encoded, end)
    ensures end == start + |Spelling(w)| && encoded == SignPart(f, w.sign)
  {
    hide IsSomeEncodingOf, SignBit, Infinity, StandsAt, Spelling, ExponentOf, DecimalNat, AreWordsFor;
    WordsOf(f, capacity, text, start, w, exponentMarks, encoded, end);
    ZeroIsEncoded(f, w.sign.Minus?, encoded);
  }

  lemma ZeroIsEncoded(f: Format, negative: bool, encoded: nat)
    requires IsSomeEncodingOf(f, if negative then '-' else '+', [], 0, encoded)
    ensures encoded == if negative then SignBit(f) else 0
  {
  }

  // ---------------------------------------------------------------- words that are no numerals

  /** The letters of a word, each small or capital. */
  predicate SpellsWord(text: string, p: nat, small: string, capital: string)
    requires |small| == |capital|
  {
    forall i :: 0 <= i < |small| ==> At(text, p + i) == small[i] || At(text, p + i) == capital[i]
  }

  predicate SaysNan(text: string, p: nat) {
    SpellsWord(text, p, "nan", "NAN")
  }

  predicate SaysInf(text: string, p: nat) {
    SpellsWord(text, p, "inf", "INF")
  }

  predicate SaysInfinity(text: string, p: nat) {
    SpellsWord(text, p, "infinity", "INFINITY")
  }

  predicate HasSign(text: string, start: nat, s: Sign) {
    match s
    case Unsigned => true
    case Plus => At(text, start) == '+'
    case Minus => At(text, start) == '-'
  }

  /** After a sign or none, nan gives a number of that kind, and inf and infinity the infinity of the sign; each is read to
      its end. */
  lemma WordsAreRead(f: Format, capacity: nat, text: string, start: nat, s: Sign, exponentMarks: string, encoded: nat, end: nat)
    requires IsFOrD(f) && capacity > 2 && AreWordsFor(text, start, exponentMarks, f, capacity, encoded, end)
    requires HasSign(text, start, s)
    ensures var p := start + |SignText(s)|;
      && (SaysNan(text, p) ==> encoded == SignBit(f) - 1 && end == p + 3)
      && (SaysInf(text, p) ==> encoded == SignPart(f, s) + Infinity(f) && end == if SaysInfinity(text, p) then p + 8 else p + 3)
  {
    hide NumeralAt, Reading, IsSomeEncodingOf, SignBit, Infinity, SaysNan, SaysInf, SaysInfinity, IsNan, IsInf, IsInity;
    Words(text, start + |SignText(s)|);
  }

  lemma Words(text: string, p: nat)
    ensures SaysNan(text, p) <==> IsNan(text, p)
    ensures SaysInf(text, p) <==> IsInf(text, p)
    ensures SaysInfinity(text, p) <==> IsInf(text, p) && IsInity(text, p + 3)
    ensures IsNan(text, p) || IsInf(text, p) ==> At(text, p) !in {'+', '-'} && !(IsNan(text, p) && IsInf(text, p))
  {
    SpellsThree(text, p, "nan", "NAN");
    SpellsThree(text, p, "inf", "INF");
    SpellsEight(text, p, "infinity", "INFINITY");
    assert "infinity"[..3] == "inf" && "INFINITY"[..3] == "INF";
  }

  lemma SpellsThree(text: string, p: nat, small: string, capital: string)
    requires |small| == |capital| == 3
    ensures SpellsWord(text, p, small, capital) <==>
      Letter(At(text, p), small[0], capital[0]) && Letter(At(text, p + 1), small[1], capital[1]) && Letter(At(text, p + 2), small[2], capital[2])
  {
    assert SpellsWord(text, p, small, capital) ==>
      (At(text, p + 0) == small[0] || At(text, p + 0) == capital[0])
      && (At(text, p + 1) == small[1] || At(text, p + 1) == capital[1])
      && (At(text, p + 2) == small[2] || At(text, p + 2) == capital[2]);
  }

  lemma SpellsEight(text: string, p: nat, small: string, capital: string)
    requires |small| == |capital| == 8
    ensures SpellsWord(text, p, small, capital) <==>
      && SpellsWord(text, p, small[..3], capital[..3])
      && Letter(At(text, p + 3), small[3], capital[3]) && Letter(At(text, p + 4), small[4], capital[4])
      && Letter(At(text, p + 5), small[5], capital[5]) && Letter(At(text, p + 6), small[6], capital[6])
      && Letter(At(text, p + 7), small[7], capital[7])
  {
    assert SpellsWord(text, p, small, capital) ==>
      (At(text, p + 3) == small[3] || At(text, p + 3) == capital[3])
      && (At(text, p + 4) == small[4] || At(text, p + 4) == capital[4])
      && (At(text, p + 5) == small[5] || At(text, p + 5) == capital[5])
      && (At(text, p + 6) == small[6] || At(text, p + 6) == capital[6])
      && (At(text, p + 7) == small[7] || At(text, p + 7) == capital[7]);
  }
}
