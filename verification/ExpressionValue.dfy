/** What expressions are worth: constants in 64 bits, and sums of symbols under every placing of them. */
module ExpressionValue {
  import opened Arith
  import opened Decimal
  import opened OperatorLaws
  import opened Operators
  import opened Parser
  import opened SyntaxTree
  import opened Wrappers

  // ---------------------------------------------------------------- whole texts

  function Text(t: Tree): string {
    if WellFormed(t) then Show(t) else ""
  }

  /** The parser reads exactly the text of a tree, and gives its meaning, wherever the text stands and whatever
      follows that does not go on with it. */
  lemma TextMeansTree(env: Environment, before: string, t: Tree, after: string)
    requires var text, q := before + Text(t) + after, |before| + |Text(t)|;
      WellFormed(t) && Ends(text, q) && NextRank(text, q) == 0
    ensures var text, q := before + Text(t) + after, |before| + |Text(t)|;
      ParseExpr(env, text, |before|, 0) == AsParsed(Meaning(env, t), Skip(text, q))
  {
    hide *;
    WrittenText(t);
    SpelledInside(before, Text(t), after);
    ExpressionFound(env, before + Text(t) + after, |before|, t, |before| + |Text(t)|, 0);
    NothingOnTop(env, before + Text(t) + after, |before| + |Text(t)|, Meaning(env, t));
  }

  lemma WrittenText(t: Tree)
    requires WellFormed(t)
    ensures 0 < TopRank(t) && Text(t) == Show(t)
  {
  }

  lemma SpelledInside(before: string, s: string, after: string)
    ensures Spelled(before + s + after, |before|, s, |before| + |s|)
  {
  }

  // ---------------------------------------------------------------- constants

  predicate IsConstant(t: Tree) {
    match t
    case Num(_, _) => true
    case Sym(_, _) => false
    case Unary(_, _, x) => IsConstant(x)
    case Paren(_, x, _) => IsConstant(x)
    case Binary(l, _, _, r) => IsConstant(l) && IsConstant(r)
  }

  /** The one result that obeys the law of the operator. */
  ghost function Result(op: Operator, a: Int64, b: Int64): (r: Int64)
    requires HasMeaning(op, a, b)
    ensures IsResult(op, a, b, r)
  {
    ComputeObeys(op, a, b);
    var r: Int64 :| IsResult(op, a, b, r);
    r
  }

  ghost function UnaryResult(c: char, x: Int64): (r: Int64)
    ensures IsUnaryResult(c, x, r)
  {
    UnaryObeys(c, x);
    var r: Int64 :| IsUnaryResult(c, x, r);
    r
  }

  /** The value of a constant expression by the laws of its operators. */
  ghost function Eval(t: Tree): Option<Int64>
    requires IsConstant(t)
  {
    match t
    case Num(_, n) => if n < HALF then Some(n) else None
    case Unary(_, c, x) =>
      var v := Eval(x);
      if v.None? then None else Some(UnaryResult(c, v.value))
    case Paren(_, x, _) => Eval(x)
    case Binary(l, _, op, r) =>
      var v, w := Eval(l), Eval(r);
      if v.None? || w.None? || !HasMeaning(op, v.value, w.value) then None
      else Some(Result(op, v.value, w.value))
  }

  lemma ResultIsComputed(op: Operator, a: Int64, b: Int64)
    requires HasMeaning(op, a, b)
    ensures IsDefined(op, a, b) && Result(op, a, b) == Compute(op, a, b)
  {
    hide IsResult;
    ComputeObeys(op, a, b);
    ResultIsUnique(op, a, b, Result(op, a, b), Compute(op, a, b));
  }

  lemma UnaryIsComputed(c: char, x: Int64)
    ensures UnaryResult(c, x) == UnaryValue(c, x)
  {
    hide IsUnaryResult;
    UnaryObeys(c, x);
    UnaryIsUnique(c, x, UnaryResult(c, x), UnaryValue(c, x));
  }

  /** A divisor is zero somewhere. */
  ghost predicate DividesByZeroIn(t: Tree)
    requires IsConstant(t)
  {
    match t
    case Num(_, _) => false
    case Unary(_, _, x) => DividesByZeroIn(x)
    case Paren(_, x, _) => DividesByZeroIn(x)
    case Binary(l, _, op, r) =>
      DividesByZeroIn(l) || DividesByZeroIn(r) || (op in {Divide, Modulus} && Eval(r) == Some(0))
  }

  lemma CombineConstants(env: Environment, op: Operator, a: Int64, b: Int64)
    requires op != Illegal
    ensures Combine(env, op, Constant(a), Constant(b))
      == if IsDefined(op, a, b) then Some(Outcome(Constant(Compute(op, a, b)), DividesByZero(op, b))) else None
  {
    if op.Subtract? {
      assert Wrap(a + Wrap(-(b as int))) == Wrap(a - b) by { WrapAdd(a, -(b as int)); }
    }
  }

  lemma WrapAdd(a: int, b: int)
    ensures Wrap(a + Wrap(b)) == Wrap(a + b)
  {
    WrapStep(b, 1, a);
  }

  /** Constant expressions stay constant, and only a division by zero is warned of. */
  lemma {:induction false} ConstantMeaning(env: Environment, t: Tree)
    requires WellFormed(t) && IsConstant(t)
    ensures Meaning(env, t)
      == if Eval(t).None? then None else Some(Outcome(Constant(Eval(t).value), DividesByZeroIn(t)))
  {
    hide Combine, Compute, IsDefined, HasMeaning, Wrap, Rank, UnaryValue, Result, UnaryResult;
    match t
    case Num(_, n) => SmallNumber(n);
    case Unary(_, c, x) =>
      ConstantMeaning(env, x);
      if Eval(x).Some? {
        UnaryIsComputed(c, Eval(x).value);
      }
    case Paren(_, x, _) => ConstantMeaning(env, x);
    case Binary(l, _, op, r) =>
      ConstantMeaning(env, l);
      ConstantMeaning(env, r);
      if Eval(l).Some? && Eval(r).Some? {
        CombineConstants(env, op, Eval(l).value, Eval(r).value);
        MeaningIsDefined(op, Eval(l).value, Eval(r).value);
        if HasMeaning(op, Eval(l).value, Eval(r).value) {
          ResultIsComputed(op, Eval(l).value, Eval(r).value);
        }
      }
    case _ =>
  }

  // ---------------------------------------------------------------- parentheses

  /** The tree with parentheses where the ranks call for them, and nowhere else. */
  function Parenthesised(t: Tree): Tree {
    match t
    case Num(_, _) => t
    case Sym(_, _) => t
    case Unary(g, c, x) => Unary(g, c, Enclosed(Parenthesised(x), 11))
    case Paren(g, x, close) => Paren(g, Parenthesised(x), close)
    case Binary(l, g, op, r) =>
      Binary(Enclosed(Parenthesised(l), Rank(op)), g, op, Enclosed(Parenthesised(r), Rank(op) + 1))
  }

  function Enclosed(t: Tree, rank: nat): Tree {
    if TopRank(t) >= rank then t else Paren(false, t, false)
  }

  /** Numbers fit 63 bits, names are names, and operators can be written. */
  predicate IsWritable(t: Tree) {
    match t
    case Num(_, n) => n < HALF
    case Sym(_, name) => IsName(name)
    case Unary(_, c, x) => c in {'-', '~', '!'} && IsWritable(x)
    case Paren(_, x, _) => IsWritable(x)
    case Binary(l, _, op, r) => op != Illegal && op != BitOrNot && IsWritable(l) && IsWritable(r)
  }

  lemma {:induction false} ParenthesisedIsWellFormed(t: Tree)
    requires IsWritable(t)
    ensures WellFormed(Parenthesised(t)) && TopRank(Parenthesised(t)) == TopRank(t)
    ensures WellFormed(t) ==> Parenthesised(t) == t
  {
    hide IsName;
    match t
    case Num(_, _) =>
    case Sym(_, _) =>
    case Unary(_, _, x) => ParenthesisedIsWellFormed(x);
    case Paren(_, x, _) => ParenthesisedIsWellFormed(x);
    case Binary(l, _, _, r) =>
      ParenthesisedIsWellFormed(l);
      ParenthesisedIsWellFormed(r);
  }

  lemma {:induction false} ParenthesisedValue(t: Tree)
    requires IsConstant(t)
    ensures IsConstant(Parenthesised(t)) && Eval(Parenthesised(t)) == Eval(t)
    ensures DividesByZeroIn(Parenthesised(t)) == DividesByZeroIn(t)
  {
    hide Rank, HasMeaning, Result, UnaryResult;
    match t
    case Num(_, _) =>
    case Unary(_, _, x) => ParenthesisedValue(x);
    case Paren(_, x, _) => ParenthesisedValue(x);
    case Binary(l, _, _, r) =>
      ParenthesisedValue(l);
      ParenthesisedValue(r);
    case _ =>
  }

  /** The main result: any tree of constants, written with parentheses only where the ranks call for them, is read
      back with its value, to the end of its text and no further. */
  lemma ConstantsRoundTrip(env: Environment, before: string, t: Tree, after: string)
    requires IsWritable(t) && IsConstant(t) && Eval(t).Some?
    requires var s := Text(Parenthesised(t));
      Ends(before + s + after, |before| + |s|) && NextRank(before + s + after, |before| + |s|) == 0
    ensures var s := Text(Parenthesised(t));
      ParseExpr(env, before + s + after, |before|, 0)
      == Parsed(Constant(Eval(t).value), Skip(before + s + after, |before| + |s|), DividesByZeroIn(t))
  {
    hide *;
    ParenthesisedIsWellFormed(t);
    ParenthesisedValue(t);
    ConstantMeaning(env, Parenthesised(t));
    TextMeansTree(env, before, Parenthesised(t), after);
    AsParsedSome(Constant(Eval(t).value), DividesByZeroIn(t), Skip(before + Text(Parenthesised(t)) + after, |before| + |Text(Parenthesised(t))|));
  }

  lemma AsParsedSome(e: Expression, warned: bool, p: nat)
    ensures AsParsed(Some(Outcome(e, warned)), p) == Parsed(e, p, warned)
  {
  }

  // ---------------------------------------------------------------- sums of symbols

  /** The number that an expression denotes when every symbol has a place. */
  function Denotes(e: Expression, v: string -> int): int {
    (if e.add.Some? then v(e.add.value) else 0) - (if e.subtract.Some? then v(e.subtract.value) else 0) + e.number
  }

  /** The segment does not belie the symbols, so that cleaning up loses nothing. */
  predicate Sound(e: Expression) {
    && (e.seg in {Absolute, Absent} ==> e.add.None? && e.subtract.None?)
    && (e.seg.Absent? ==> e.number == 0)
    && (e.seg in {Sect, Unknown} ==> e.add.Some? && e.subtract.None?)
  }

  lemma CleanUpDenotes(e: Expression, v: string -> int)
    requires Sound(e)
    ensures Sound(CleanUp(e)) && Denotes(CleanUp(e), v) == Denotes(e, v)
  {
  }

  lemma WrapNegate(x: int, y: int)
    requires Wrap(x) == Wrap(y)
    ensures Wrap(-x) == Wrap(-y)
  {
    var k := (x + HALF) / WHOLE - (y + HALF) / WHOLE;
    assert x == y + k * WHOLE;
    assert -x == -y + (-k) * WHOLE;
    WrapPeriod(-y, -k);
  }

  lemma WrapSum(x: int, x': int, y: int, y': int)
    requires Wrap(x) == Wrap(x') && Wrap(y) == Wrap(y')
    ensures Wrap(x + y) == Wrap(x' + y')
  {
    WrapAdd(x, y);
    WrapAdd(x, y');
    WrapAdd(y', x);
    WrapAdd(y', x');
  }

  /** Whenever a sum is not warned of, it denotes the sum under every placing of the symbols, symbols that
      cancel included. */
  lemma PlusDenotes(env: Environment, l: Expression, r: Expression, v: string -> int)
    requires Sound(l) && Sound(r) && !Plus(env, l, r).warned
    ensures Sound(Plus(env, l, r).e)
    ensures Wrap(Denotes(Plus(env, l, r).e, v)) == Wrap(Denotes(l, v) + Denotes(r, v))
  {
    CleanUpDenotes(l, v);
    CleanUpDenotes(r, v);
    var l', r' := CleanUp(l), CleanUp(r);
    hide CleanUp;
    var adds, subtracts := ExprPart(env, l'.add, r'.add), ExprPart(env, l'.subtract, r'.subtract);
    var seg := if subtracts.seg.value != Absolute then Diffsect else if l'.seg != Diffsect then adds.seg.value else l'.seg;
    var sum := Expression(seg, adds.symbol, subtracts.symbol, Wrap(l'.number + r'.number), l'.halved);
    CleanUpDenotes(sum, v);
    var rest := Denotes(sum, v) - sum.number;
    assert Denotes(l, v) + Denotes(r, v) == rest + (l'.number + r'.number);
    WrapAdd(rest, l'.number + r'.number);
  }

  lemma ReversedDenotes(e: Expression, v: string -> int)
    requires Sound(e)
    ensures Sound(Reversed(e)) && Wrap(Denotes(Reversed(e), v)) == Wrap(-Denotes(e, v))
  {
    WrapAdd(-(Denotes(e, v) - e.number), -(e.number as int));
  }

  /** A minus before a symbol does not negate the number beside it, and so is right only when that does not matter. */
  lemma UnaryMinusIsRightIff(e: Expression, v: string -> int)
    requires Sound(e) && e.seg in {Absolute, Sect, Unknown}
    ensures !ApplyUnary('-', e).warned && Sound(ApplyUnary('-', e).e)
    ensures Wrap(Denotes(ApplyUnary('-', e).e, v)) == Wrap(-Denotes(e, v))
      <==> e.seg.Absolute? || Wrap(2 * e.number) == 0
  {
    if !e.seg.Absolute? {
      var a := v(e.add.value);
      var n: int := e.number;
      WrapEqual(-a + n, -a - n);
      WrapEqual(2 * n, 0);
    }
  }

  lemma WrapEqual(x: int, y: int)
    ensures Wrap(x) == Wrap(y) <==> (x - y) % WHOLE == 0
  {
    var k := (x + HALF) / WHOLE - (y + HALF) / WHOLE;
    assert x - y == k * WHOLE + (Wrap(x) - Wrap(y));
    if Wrap(x) == Wrap(y) {
      ModOfMultiple(k, WHOLE);
    } else if (x - y) % WHOLE == 0 {
      var m := (x - y) / WHOLE;
      assert x == y + m * WHOLE;
      WrapPeriod(y, m);
    }
  }

  /** Trees of numbers, symbols, sums, differences and negations. */
  predicate IsSum(t: Tree) {
    match t
    case Num(_, _) => true
    case Sym(_, _) => true
    case Unary(_, c, x) => c == '-' && IsSum(x)
    case Paren(_, x, _) => IsSum(x)
    case Binary(l, _, op, r) => op in {Add, Subtract} && IsSum(l) && IsSum(r)
  }

  /** The number that a sum denotes when every symbol has a place. */
  function SumOf(env: Environment, t: Tree, v: string -> int): int
    requires IsSum(t)
  {
    match t
    case Num(_, n) => n
    case Sym(_, name) => (match env.Lookup(name) case Fixed(c) => c as int case _ => v(name))
    case Unary(_, _, x) => -SumOf(env, x, v)
    case Paren(_, x, _) => SumOf(env, x, v)
    case Binary(l, _, op, r) =>
      if op.Add? then SumOf(env, l, v) + SumOf(env, r, v) else SumOf(env, l, v) - SumOf(env, r, v)
  }

  /** No minus stands before a symbol with a number beside it that negation would change. */
  predicate NegatesNoOffset(env: Environment, t: Tree) {
    match t
    case Num(_, _) => true
    case Sym(_, _) => true
    case Unary(_, _, x) =>
      && NegatesNoOffset(env, x)
      && (Meaning(env, x).Some? ==> Meaning(env, x).value.e.seg.Absolute? || Wrap(2 * Meaning(env, x).value.e.number) == 0)
    case Paren(_, x, _) => NegatesNoOffset(env, x)
    case Binary(l, _, _, r) => NegatesNoOffset(env, l) && NegatesNoOffset(env, r)
  }

  /** The main result on symbols: a sum without warnings denotes what is written, wherever the symbols are placed. */
  lemma {:induction false} SumMeans(env: Environment, t: Tree, v: string -> int)
    requires IsSum(t) && NegatesNoOffset(env, t) && Meaning(env, t).Some? && !Meaning(env, t).value.warned
    ensures Sound(Meaning(env, t).value.e)
    ensures Wrap(Denotes(Meaning(env, t).value.e, v)) == Wrap(SumOf(env, t, v))
  {
    hide Plus, CleanUp, ApplyUnary, Denotes, Sound, Wrap;
    match t
    case Num(_, n) => LeafMeans(env, t, v);
    case Sym(_, _) => LeafMeans(env, t, v);
    case Unary(_, _, x) =>
      SumMeans(env, x, v);
      NegationMeans(Meaning(env, x).value.e, v, SumOf(env, x, v));
    case Paren(_, x, _) =>
      SumMeans(env, x, v);
      CleanUpDenotes(Meaning(env, x).value.e, v);
    case Binary(l, _, op, r) =>
      SumMeans(env, l, v);
      SumMeans(env, r, v);
      AdditionMeans(env, op, Meaning(env, l).value.e, Meaning(env, r).value.e, v, SumOf(env, l, v), SumOf(env, r, v));
  }

  lemma LeafMeans(env: Environment, t: Tree, v: string -> int)
    requires t.Num? || t.Sym?
    ensures Sound(Meaning(env, t).value.e)
    ensures Wrap(Denotes(Meaning(env, t).value.e, v)) == Wrap(SumOf(env, t, v))
  {
    if t.Num? {
      WrapAdd(0, t.value);
    } else {
      CleanUpDenotes(SymbolOperand(env, t.name), v);
    }
  }

  lemma NegationMeans(e: Expression, v: string -> int, sum: int)
    requires Sound(e) && Wrap(Denotes(e, v)) == Wrap(sum) && !ApplyUnary('-', e).warned
    requires e.seg.Absolute? || Wrap(2 * e.number) == 0
    ensures var u := CleanUp(ApplyUnary('-', e).e); Sound(u) && Wrap(Denotes(u, v)) == Wrap(-sum)
  {
    UnaryMinusIsRightIff(e, v);
    CleanUpDenotes(ApplyUnary('-', e).e, v);
    WrapNegate(Denotes(e, v), sum);
  }

  lemma AdditionMeans(env: Environment, op: Operator, l: Expression, r: Expression, v: string -> int, a: int, b: int)
    requires op in {Add, Subtract} && Sound(l) && Sound(r)
    requires Wrap(Denotes(l, v)) == Wrap(a) && Wrap(Denotes(r, v)) == Wrap(b)
    requires Combine(env, op, l, r).Some? && !Combine(env, op, l, r).value.warned
    ensures var e := Combine(env, op, l, r).value.e;
      Sound(e) && Wrap(Denotes(e, v)) == Wrap(if op.Add? then a + b else a - b)
  {
    hide Plus, CleanUp, Denotes, Sound, Wrap;
    if op.Add? {
      PlusDenotes(env, l, r, v);
      WrapSum(Denotes(l, v), a, Denotes(r, v), b);
    } else {
      ReversedDenotes(r, v);
      PlusDenotes(env, l, Reversed(r), v);
      WrapNegate(Denotes(r, v), b);
      WrapSum(Denotes(l, v), a, Denotes(Reversed(r), v), -b);
    }
  }

  // ---------------------------------------------------------------- seen from the text alone

  /** A symbol, in parentheses or not. */
  predicate IsLoneSymbol(t: Tree) {
    t.Sym? || (t.Paren? && IsLoneSymbol(t.inner))
  }

  /** Only constants and symbols that stand alone are negated. */
  predicate NegatesPlainly(t: Tree) {
    match t
    case Num(_, _) => true
    case Sym(_, _) => true
    case Unary(_, _, x) => IsConstant(x) || IsLoneSymbol(x)
    case Paren(_, x, _) => NegatesPlainly(x)
    case Binary(l, _, _, r) => NegatesPlainly(l) && NegatesPlainly(r)
  }

  /** That is enough for SumMeans, whatever the symbols are. */
  lemma {:induction false} NegatingPlainlyIsEnough(env: Environment, t: Tree)
    requires IsSum(t) && NegatesPlainly(t)
    ensures NegatesNoOffset(env, t)
  {
    match t
    case Num(_, _) =>
    case Sym(_, _) =>
    case Unary(_, _, x) =>
      if IsConstant(x) {
        ConstantSum(env, x);
      } else {
        LoneSymbol(env, x);
      }
    case Paren(_, x, _) => NegatingPlainlyIsEnough(env, x);
    case Binary(l, _, _, r) =>
      NegatingPlainlyIsEnough(env, l);
      NegatingPlainlyIsEnough(env, r);
  }

  lemma {:induction false} ConstantSum(env: Environment, t: Tree)
    requires IsSum(t) && IsConstant(t)
    ensures NegatesNoOffset(env, t) && Meaning(env, t).Some?
    ensures Meaning(env, t).value.e == Constant(Meaning(env, t).value.e.number)
  {
    match t
    case Num(_, _) =>
    case Unary(_, _, x) => ConstantSum(env, x);
    case Paren(_, x, _) => ConstantSum(env, x);
    case Binary(l, _, op, r) =>
      ConstantSum(env, l);
      ConstantSum(env, r);
      CombineConstants(env, op, Meaning(env, l).value.e.number, Meaning(env, r).value.e.number);
      hide Combine, Compute;
  }

  lemma {:induction false} LoneSymbol(env: Environment, t: Tree)
    requires IsLoneSymbol(t)
    ensures NegatesNoOffset(env, t) && Meaning(env, t).Some?
    ensures var e := Meaning(env, t).value.e; e == CleanUp(e) && (e.seg.Absolute? || e.number == 0)
  {
    if t.Paren? {
      LoneSymbol(env, t.inner);
    }
  }

  const NEGATED_OFFSET := Unary(false, '-', Paren(false, Binary(Sym(false, "a"), false, Add, Num(false, 4)), false))

  lemma NegatedOffsetText()
    ensures WellFormed(NEGATED_OFFSET) && Show(NEGATED_OFFSET) == "-(a+4)"
  {
    assert DecimalText(4) == "4";
    assert Show(Binary(Sym(false, "a"), false, Add, Num(false, 4))) == "a+4";
  }

  /** The offset that is not negated: -(a+4) reads as 4-a without a warning. */
  lemma NegatedOffsetExample()
    ensures Meaning(Environment(map[], map[], false), NEGATED_OFFSET)
      == Some(Outcome(Expression(Diffsect, None, Some("a"), 4, false), false))
  {
    var env := Environment(map[], map[], false);
    var sum := Binary(Sym(false, "a"), false, Add, Num(false, 4));
    assert Meaning(env, sum) == Some(Outcome(Expression(Unknown, Some("a"), None, 4, false), false));
  }
}
