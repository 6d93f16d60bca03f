/** Expression texts spelled out: how two operators group, and which numbers the literals of each radix are
    (cctools/as/expr.c). */
module ConcreteText {
  import opened Decimal
  import opened ExpressionValue
  import opened OperatorLaws
  import opened Operators
  import opened Parser
  import opened SyntaxTree
  import opened Wrappers

  // ---------------------------------------------------------------- operators

  /** The operator with this spelling, in the tier of those that bind as tightly, the loosest first. */
  predicate IsIn(op: Operator, s: string, tier: nat) {
    match tier
    case 0 => s == "||" && op.LogicalOr?
    case 1 => s == "&&" && op.LogicalAnd?
    case 2 => s == "|" && op.BitInclusiveOr?
    case 3 => s == "^" && op.BitExclusiveOr?
    case 4 => s == "&" && op.BitAnd?
    case 5 => (s == "==" && op.Equal?) || (s == "!=" && op.NotEqual?)
    case 6 => (s == "<" && op.LessThan?) || (s == ">" && op.GreaterThan?) || (s == "<=" && op.LessOrEqual?)
              || (s == ">=" && op.GreaterOrEqual?)
    case 7 => (s == "<<" && op.LeftShift?) || (s == ">>" && op.RightShift?)
    case 8 => (s == "+" && op.Add?) || (s == "-" && op.Subtract?)
    case 9 => (s == "*" && op.Multiply?) || (s == "/" && op.Divide?) || (s == "%" && op.Modulus?)
    case _ => false
  }

  lemma TierIsRank(op: Operator, s: string, tier: nat)
    requires IsIn(op, s, tier)
    ensures op != Illegal && op != BitOrNot && OperatorText(op) == s && Rank(op) == tier + 1 && Rank(op) < 11
  {
  }

  function LeftFirst(x: nat, p: Operator, y: nat, q: Operator, z: nat): Tree {
    Binary(Two(x, p, y), false, q, Num(false, z))
  }

  function RightFirst(x: nat, p: Operator, y: nat, q: Operator, z: nat): Tree {
    Binary(Num(false, x), false, p, Two(y, q, z))
  }

  function Two(x: nat, p: Operator, y: nat): Tree {
    Binary(Num(false, x), false, p, Num(false, y))
  }

  lemma OneText(x: nat)
    requires x < HALF
    ensures var t := Num(false, x); IsWritable(t) && WellFormed(t) && IsConstant(t) && Eval(t) == Some(x)
    ensures Show(Num(false, x)) == "" + DecimalText(x)
  {
  }

  lemma TwoText(x: nat, p: Operator, y: nat)
    requires x < HALF && y < HALF && p !in {Illegal, BitOrNot} && Rank(p) < 11
    ensures var t := Two(x, p, y);
      && IsWritable(t) && WellFormed(t) && IsConstant(t) && TopRank(t) == Rank(p)
      && Show(t) == ("" + DecimalText(x)) + ("" + (OperatorText(p) + ("" + DecimalText(y))))
  {
    hide DecimalText, OperatorText, Rank;
    OneText(x);
    OneText(y);
  }

  lemma LeftText(x: nat, p: Operator, y: nat, q: Operator, z: nat)
    requires x < HALF && y < HALF && z < HALF && p !in {Illegal, BitOrNot} && q !in {Illegal, BitOrNot}
    requires Rank(q) <= Rank(p) < 11
    ensures var t := LeftFirst(x, p, y, q, z);
      && IsWritable(t) && WellFormed(t) && IsConstant(t)
      && Text(t) == DecimalText(x) + OperatorText(p) + DecimalText(y) + OperatorText(q) + DecimalText(z)
  {
    hide DecimalText, OperatorText, Rank;
    TwoText(x, p, y);
    OneText(z);
    LeftAssociated(DecimalText(x), OperatorText(p), DecimalText(y), OperatorText(q), DecimalText(z));
  }

  lemma RightText(x: nat, p: Operator, y: nat, q: Operator, z: nat)
    requires x < HALF && y < HALF && z < HALF && p !in {Illegal, BitOrNot} && q !in {Illegal, BitOrNot}
    requires Rank(p) < Rank(q) < 11
    ensures var t := RightFirst(x, p, y, q, z);
      && IsWritable(t) && WellFormed(t) && IsConstant(t)
      && Text(t) == DecimalText(x) + OperatorText(p) + DecimalText(y) + OperatorText(q) + DecimalText(z)
  {
    hide DecimalText, OperatorText, Rank;
    TwoText(y, q, z);
    OneText(x);
    RightAssociated(DecimalText(x), OperatorText(p), DecimalText(y), OperatorText(q), DecimalText(z));
  }

  lemma LeftAssociated(a: string, b: string, c: string, d: string, e: string)
    ensures (("" + a) + ("" + (b + ("" + c)))) + ("" + (d + ("" + e))) == a + b + c + d + e
  {
  }

  lemma RightAssociated(a: string, b: string, c: string, d: string, e: string)
    ensures ("" + a) + ("" + (b + (("" + c) + ("" + (d + ("" + e)))))) == a + b + c + d + e
  {
  }

  lemma LeftValue(x: nat, p: Operator, y: nat, q: Operator, z: nat, u: Int64, v: Int64)
    requires x < HALF && y < HALF && z < HALF
    requires HasMeaning(p, x, y) && IsResult(p, x, y, u) && HasMeaning(q, u, z) && IsResult(q, u, z, v)
    ensures var t := LeftFirst(x, p, y, q, z); IsConstant(t) && Eval(t) == Some(v)
  {
    hide HasMeaning, IsResult, Result;
    OneText(x);
    OneText(y);
    OneText(z);
    ResultIsUnique(p, x, y, u, Result(p, x, y));
    assert Eval(Two(x, p, y)) == Some(u);
    ResultIsUnique(q, u, z, v, Result(q, u, z));
  }

  lemma RightValue(x: nat, p: Operator, y: nat, q: Operator, z: nat, u: Int64, v: Int64)
    requires x < HALF && y < HALF && z < HALF
    requires HasMeaning(q, y, z) && IsResult(q, y, z, u) && HasMeaning(p, x, u) && IsResult(p, x, u, v)
    ensures var t := RightFirst(x, p, y, q, z); IsConstant(t) && Eval(t) == Some(v)
  {
    hide HasMeaning, IsResult, Result;
    OneText(x);
    OneText(y);
    OneText(z);
    ResultIsUnique(q, y, z, u, Result(q, y, z));
    assert Eval(Two(y, q, z)) == Some(u);
    ResultIsUnique(p, x, u, v, Result(p, x, u));
  }

  /** Of two operators the one that binds more tightly comes first, and of two that bind alike the left one. */
  lemma TwoOperators(env: Environment, x: nat, p: Operator, s: string, i: nat, y: nat, q: Operator, t: string, j: nat, z: nat,
                     u: Int64, v: Int64)
    requires x < HALF && y < HALF && z < HALF && IsIn(p, s, i) && IsIn(q, t, j)
    requires if i >= j then HasMeaning(p, x, y) && IsResult(p, x, y, u) && HasMeaning(q, u, z) && IsResult(q, u, z, v)
             else HasMeaning(q, y, z) && IsResult(q, y, z, u) && HasMeaning(p, x, u) && IsResult(p, x, u, v)
    ensures var text := DecimalText(x) + s + DecimalText(y) + t + DecimalText(z);
      var r := ParseExpr(env, text, 0, 0);
      r.Parsed? && r.e == Constant(v) && r.p == |text|
  {
    hide DecimalText, OperatorText, Rank, HasMeaning, IsResult, IsIn;
    TierIsRank(p, s, i);
    TierIsRank(q, t, j);
    var tree := if i >= j then LeftFirst(x, p, y, q, z) else RightFirst(x, p, y, q, z);
    if i >= j {
      LeftText(x, p, y, q, z);
      LeftValue(x, p, y, q, z, u, v);
    } else {
      RightText(x, p, y, q, z);
      RightValue(x, p, y, q, z, u, v);
    }
    WholeText(env, tree, v);
  }

  /** The text of a tree, when nothing stands before or after it. */
  lemma WholeText(env: Environment, t: Tree, v: Int64)
    requires IsWritable(t) && WellFormed(t) && IsConstant(t) && Eval(t) == Some(v)
    ensures var r := ParseExpr(env, Text(t), 0, 0); r.Parsed? && r.e == Constant(v) && r.p == |Text(t)|
  {
    hide *;
    ParenthesisedIsWellFormed(t);
    NothingFollows(Text(t));
    ConstantsRoundTrip(env, "", t, "");
  }

  lemma NothingFollows(s: string)
    ensures "" + s + "" == s && Ends(s, |s|) && NextRank(s, |s|) == 0 && Skip(s, |s|) == |s|
  {
  }

  /** When the operand after an operator is missing the result is zero, whatever stands before it, and there is a warning. */
  lemma MissingOperandIsZero(env: Environment, x: nat, op: Operator, s: string, tier: nat)
    requires x < HALF && IsIn(op, s, tier)
    ensures var text := DecimalText(x) + s;
      ParseExpr(env, text, 0, 0) == Parsed(Constant(0), |text|, true)
  {
    hide DecimalText, IsIn, Rank, ParseTail, ParseOperand, Combine, ParseExpr;
    TierIsRank(op, s, tier);
    OneText(x);
    var d := DecimalText(x);
    var text := d + s;
    SpelledInside("", d, s);
    assert "" + d + s == text && "" + d == d;
    OperatorAtEnd(text, |d|, op);
    OperandFound(env, text, 0, Num(false, x), |d|);
    CombineWithNothing(env, op, x);
    NothingAtEnd(env, text, Rank(op));
    OperandThenTail(env, text, |d|, op, x);
  }

  lemma OperatorAtEnd(text: string, p: nat, op: Operator)
    requires op != Illegal && op != BitOrNot && p <= |text| && text[p..] == OperatorText(op)
    ensures OperatorAt(text, p) == op && p + Size(op) == |text| && Ends(text, p) && Skip(text, p) == p
  {
    assert text[p] == OperatorText(op)[0] by { assert text[p..][0] == text[p]; }
    if Size(op) == 2 {
      assert text[p + 1] == OperatorText(op)[1] by { assert text[p..][1] == text[p + 1]; }
    }
  }

  lemma CombineWithNothing(env: Environment, op: Operator, x: nat)
    requires x < HALF && op != Illegal && op != BitOrNot
    ensures Combine(env, op, Constant(x), Expression(Absent, None, None, 0, false)) == Some(Outcome(Constant(0), true))
  {
  }

  lemma NothingAtEnd(env: Environment, text: string, rank: nat)
    ensures ParseExpr(env, text, |text|, rank) == Parsed(Expression(Absent, None, None, 0, false), |text|, false)
    ensures ParseTail(env, text, |text|, 0, Constant(0), true) == Parsed(Constant(0), |text|, true)
  {
    assert ParseOperand(env, text, |text|) == Parsed(Expression(Absent, None, None, 0, false), |text|, false);
    hide ParseOperand;
  }

  lemma OperandThenTail(env: Environment, text: string, p: nat, op: Operator, x: nat)
    requires x < HALF && OperatorAt(text, p) == op && Rank(op) > 0 && p + Size(op) == |text|
    requires ParseOperand(env, text, 0) == Parsed(Constant(x), p, false)
    requires ParseExpr(env, text, |text|, Rank(op)) == Parsed(Expression(Absent, None, None, 0, false), |text|, false)
    requires ParseTail(env, text, |text|, 0, Constant(0), true) == Parsed(Constant(0), |text|, true)
    requires Combine(env, op, Constant(x), Expression(Absent, None, None, 0, false)) == Some(Outcome(Constant(0), true))
    ensures ParseExpr(env, text, 0, 0) == Parsed(Constant(0), |text|, true)
  {
    hide ParseOperand, Combine, Rank, OperatorAt, Size;
  }

  // ---------------------------------------------------------------- literals

  const LOWER := "0123456789abcdef"
  const UPPER := "0123456789ABCDEF"

  predicate IsDigitOf(c: char, d: nat) {
    d < 16 && (c == LOWER[d] || c == UPPER[d])
  }

  /** The number that digits denote. */
  function PlaceValue(digits: seq<nat>, radix: nat): nat {
    if digits == [] then 0 else PlaceValue(digits[..|digits|-1], radix) * radix + digits[|digits|-1]
  }

  /** From p to q the text spells these digits, each below the limit, and no letter or digit follows. */
  predicate Spells(text: string, p: nat, q: nat, digits: seq<nat>, limit: nat) {
    && p <= q <= |text| && |digits| == q - p && limit <= 16 && !PartOfName(At(text, q))
    && forall i :: 0 <= i < |digits| ==> digits[i] < limit && IsDigitOf(text[p + i], digits[i])
  }

  lemma DigitIsHex(c: char, d: nat)
    requires IsDigitOf(c, d)
    ensures HexValue(c) == d && PartOfName(c) && (d < 10 ==> IsDigit(c))
  {
    var k := d;
    assert LOWER[k] == LOWER[d];
    if d < 10 {
      assert LOWER[d] == UPPER[d] == '0' + d as char;
    } else {
      assert LOWER[d] == 'a' + (d - 10) as char && UPPER[d] == 'A' + (d - 10) as char;
    }
  }

  lemma {:induction false} RunEnds(text: string, p: nat, q: nat, digits: seq<nat>, limit: nat)
    requires Spells(text, p, q, digits, limit)
    ensures DigitsEnd(text, p, limit) == q
    decreases q - p
  {
    hide IsDigitOf, HexValue, PartOfName;
    if p < q {
      DigitIsHex(text[p + 0], digits[0]);
      RunEnds(text, p + 1, q, digits[1..], limit);
    } else {
      NotPartOfName(At(text, q));
    }
  }

  lemma {:induction false} RunValue(text: string, p: nat, q: nat, digits: seq<nat>, radix: nat)
    requires p <= q <= |text| && |digits| == q - p
    requires forall i :: 0 <= i < |digits| ==> IsDigitOf(text[p + i], digits[i])
    ensures RadixValue(text, p, q, radix, 0) == PlaceValue(digits, radix)
    decreases q - p
  {
    hide IsDigitOf, HexValue;
    if p < q {
      var n := |digits| - 1;
      DigitIsHex(text[p + n], digits[n]);
      RunValue(text, p, q - 1, digits[..n], radix);
      RadixValueSnoc(text, p, q - 1, radix, 0);
    }
  }

  lemma DigitsRead(text: string, p: nat, q: nat, digits: seq<nat>, radix: nat, limit: nat, tooMany: nat)
    requires Spells(text, p, q, digits, limit) && |digits| < tooMany
    ensures var n := DigitsAt(text, p, radix, limit, tooMany);
      n.Number? && n.end == q && IsExact(n.value, PlaceValue(digits, radix))
  {
    hide IsDigitOf, HexValue, PartOfName, Wrap, IsExact, RadixValue, DigitsEnd;
    RunEnds(text, p, q, digits, limit);
    RunValue(text, p, q, digits, radix);
    NotPartOfName(At(text, q));
    WrapIsExact(PlaceValue(digits, radix));
  }

  /** A number of at most 21 decimal digits that does not start with a zero. */
  lemma DecimalLiteral(env: Environment, text: string, p: nat, q: nat, digits: seq<nat>)
    requires Spells(text, p, q, digits, 10) && 0 < |digits| < 22 && digits[0] != 0
    ensures exists v: Int64 :: IsExact(v, PlaceValue(digits, 10)) && ParseOperand(env, text, p) == Parsed(Constant(v), Skip(text, q), false)
  {
    hide IsDigitOf, PlaceValue, IsExact, DigitsAt;
    DigitsRead(text, p, q, digits, 10, 10, 22);
    DigitIsHex(text[p + 0], digits[0]);
    NumberOperand(env, text, p);
    CleanConstant(NumberAt(text, p).value);
  }

  /** A number of at most 17 hexadecimal digits after 0x or 0X. */
  lemma HexadecimalLiteral(env: Environment, text: string, p: nat, q: nat, digits: seq<nat>)
    requires Spells(text, p + 2, q, digits, 16) && |digits| < 18
    requires text[p] == '0' && text[p + 1] in {'x', 'X'}
    ensures exists v: Int64 :: IsExact(v, PlaceValue(digits, 16)) && ParseOperand(env, text, p) == Parsed(Constant(v), Skip(text, q), false)
  {
    hide IsDigitOf, PlaceValue, IsExact, DigitsAt;
    DigitsRead(text, p + 2, q, digits, 16, 16, 18);
    NumberOperand(env, text, p);
    CleanConstant(NumberAt(text, p).value);
  }

  /** A number of at most 21 octal digits after a zero; 8 and 9 count as digits too. */
  lemma OctalLiteral(env: Environment, text: string, p: nat, q: nat, digits: seq<nat>)
    requires Spells(text, p + 1, q, digits, 10) && |digits| < 22 && text[p] == '0'
    ensures exists v: Int64 :: IsExact(v, PlaceValue(digits, 8)) && ParseOperand(env, text, p) == Parsed(Constant(v), Skip(text, q), false)
  {
    hide IsDigitOf, PlaceValue, IsExact, DigitsAt, PartOfName;
    DigitsRead(text, p + 1, q, digits, 8, 10, 22);
    if digits != [] {
      DigitIsHex(text[p + 1 + 0], digits[0]);
    } else {
      NotPartOfName(At(text, q));
    }
    NumberOperand(env, text, p);
    CleanConstant(NumberAt(text, p).value);
  }

  /** A quoted character is the signed byte with its code. */
  lemma CharacterLiteral(env: Environment, text: string, p: nat)
    requires At(text, p) == '\''
    ensures exists v: Int64 :: (-128 <= v < 128 && (v - At(text, p + 1) as int) % 256 == 0
      && ParseOperand(env, text, p) == Parsed(Constant(v), Skip(text, p + 2), false))
  {
    CleanConstant(CharValue(At(text, p + 1)));
  }
}
