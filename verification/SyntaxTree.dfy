/** Expressions as trees, how they are spelled, and that the parser finds every tree again. */
module SyntaxTree {
  import opened Arith
  import opened Decimal
  import opened Operators
  import opened Parser
  import opened Wrappers

  /** An expression; gap and close tell whether there is a blank before a token. */
  datatype Tree =
    | Num(gap: bool, value: nat)
    | Sym(gap: bool, name: string)
    | Unary(gap: bool, c: char, operand: Tree)
    | Paren(gap: bool, inner: Tree, close: bool)
    | Binary(left: Tree, gap: bool, op: Operator, right: Tree)

  // ---------------------------------------------------------------- spelling

  function Gap(b: bool): string {
    if b then " " else ""
  }

  function OperatorText(op: Operator): (s: string)
    requires op != Illegal && op != BitOrNot
    ensures |s| == Size(op)
  {
    match op
    case Multiply => "*"
    case Divide => "/"
    case Modulus => "%"
    case Add => "+"
    case Subtract => "-"
    case RightShift => ">>"
    case LeftShift => "<<"
    case LessThan => "<"
    case GreaterThan => ">"
    case LessOrEqual => "<="
    case GreaterOrEqual => ">="
    case Equal => "=="
    case NotEqual => "!="
    case BitAnd => "&"
    case BitExclusiveOr => "^"
    case BitInclusiveOr => "|"
    case LogicalAnd => "&&"
    case _ => "||"
  }

  predicate IsName(s: string) {
    && s != "" && BeginsName(s[0]) && (s[0] == '.' ==> |s| > 1)
    && forall i :: 0 <= i < |s| ==> PartOfName(s[i])
  }

  /** The rank that decides where parentheses are needed: operands are above all operators. */
  function TopRank(t: Tree): nat {
    if t.Binary? then Rank(t.op) else 11
  }

  /** Parentheses stand wherever the ranks call for them. */
  predicate WellFormed(t: Tree) {
    match t
    case Num(_, n) => n < HALF
    case Sym(_, name) => IsName(name)
    case Unary(_, c, x) => c in {'-', '~', '!'} && !x.Binary? && WellFormed(x)
    case Paren(_, x, _) => WellFormed(x)
    case Binary(l, _, op, r) =>
      op != Illegal && op != BitOrNot && TopRank(l) >= Rank(op) && TopRank(r) > Rank(op) && WellFormed(l) && WellFormed(r)
  }

  function Show(t: Tree): string
    requires WellFormed(t)
  {
    match t
    case Num(g, n) => Gap(g) + DecimalText(n)
    case Sym(g, name) => Gap(g) + name
    case Unary(g, c, x) => (Gap(g) + [c]) + Show(x)
    case Paren(g, x, close) => (Gap(g) + "(") + (Show(x) + (Gap(close) + ")"))
    case Binary(l, g, op, r) => Show(l) + (Gap(g) + (OperatorText(op) + Show(r)))
  }

  // ---------------------------------------------------------------- meaning

  /** What the operations of the parser make of a tree, from the leaves up. None is arithmetic without a
      meaning in C. */
  function Meaning(env: Environment, t: Tree): Option<Outcome> {
    match t
    case Num(_, n) => Some(Outcome(Constant(Wrap(n)), false))
    case Sym(_, name) => Some(Outcome(CleanUp(SymbolOperand(env, name)), false))
    case Unary(_, c, x) =>
      var m := Meaning(env, x);
      if m.None? then None else
        var u := ApplyUnary(c, m.value.e);
        Some(Outcome(CleanUp(u.e), m.value.warned || u.warned))
    case Paren(_, x, _) =>
      var m := Meaning(env, x);
      if m.None? then None else Some(Outcome(CleanUp(m.value.e), m.value.warned || TooHard(env, m.value.e)))
    case Binary(l, _, op, r) =>
      var m, n := Meaning(env, l), Meaning(env, r);
      if m.None? || n.None? then None else
        var c := Combine(env, op, m.value.e, n.value.e);
        if c.None? then None else Some(Outcome(c.value.e, m.value.warned || n.value.warned || c.value.warned))
  }

  // ---------------------------------------------------------------- text and spelling

  predicate Spelled(text: string, p: nat, s: string, q: nat) {
    p <= q <= |text| && text[p..q] == s
  }

  lemma SpelledParts(text: string, p: nat, a: string, b: string, q: nat)
    requires Spelled(text, p, a + b, q)
    ensures Spelled(text, p, a, p + |a|) && Spelled(text, p + |a|, b, q)
  {
    assert text[p..p + |a|] == text[p..q][..|a|];
    assert text[p + |a|..q] == text[p..q][|a|..];
  }

  /** A number or name ends at q, and no second blank follows. */
  predicate Ends(text: string, q: nat) {
    !PartOfName(At(text, q)) && At(text, Skip(text, q)) != ' '
  }

  function NextRank(text: string, q: nat): nat {
    Rank(OperatorAt(text, Skip(text, q)))
  }

  /** A blank or not, and then a character that ends names. */
  lemma EndsBefore(text: string, p: nat, g: bool, rest: string, q: nat)
    requires Spelled(text, p, Gap(g) + rest, q) && rest != "" && !PartOfName(rest[0]) && rest[0] != ' '
    ensures Ends(text, p) && Skip(text, p) == p + |Gap(g)|
    ensures Spelled(text, Skip(text, p), rest, q)
  {
    SpelledParts(text, p, Gap(g), rest, q);
    assert text[p + |Gap(g)|..q][0] == rest[0];
    assert g ==> text[p..p + |Gap(g)|][0] == ' ';
  }

  lemma CharAt(text: string, p: nat, c: char, rest: string, q: nat)
    requires Spelled(text, p, [c] + rest, q)
    ensures At(text, p) == c && Spelled(text, p + 1, rest, q)
  {
    SpelledParts(text, p, [c], rest, q);
    assert text[p..p + 1][0] == c;
  }

  /** What a tree starts with; no operator is lengthened by it. */
  predicate Starts(c: char) {
    c == ' ' || c == '(' || c in {'-', '~', '!'} || PartOfName(c)
  }

  lemma {:induction false} FirstChar(t: Tree)
    requires WellFormed(t)
    ensures Show(t) != "" && Starts(Show(t)[0])
  {
    match t
    case Num(_, n) => DecimalTextStart(n);
    case Sym(_, _) =>
    case Unary(_, _, _) =>
    case Paren(_, _, _) =>
    case Binary(l, _, _, _) => FirstChar(l);
  }

  /** The operator is found where it is spelled, if what follows does not lengthen it. */
  lemma OperatorFound(text: string, p: nat, op: Operator, rest: string, q: nat)
    requires op != Illegal && op != BitOrNot && Spelled(text, p, OperatorText(op) + rest, q)
    requires rest != "" && Starts(rest[0])
    ensures OperatorAt(text, p) == op && Spelled(text, p + Size(op), rest, q)
  {
    SpelledParts(text, p, OperatorText(op), rest, q);
    assert text[p + Size(op)] == rest[0] by { assert text[p + Size(op)..q][0] == rest[0]; }
    assert text[p] == OperatorText(op)[0] by { assert text[p..p + Size(op)][0] == OperatorText(op)[0]; }
    if Size(op) == 2 {
      assert text[p + 1] == OperatorText(op)[1] by { assert text[p..p + Size(op)][1] == OperatorText(op)[1]; }
    }
  }

  // ---------------------------------------------------------------- numbers and names

  lemma {:induction false} DigitsEndAt(text: string, p: nat, q: nat, maxDigit: nat)
    requires p <= q <= |text| && maxDigit in {10, 16}
    requires forall i :: p <= i < q ==> IsDigit(text[i])
    requires HexValue(At(text, q)) >= maxDigit
    ensures DigitsEnd(text, p, maxDigit) == q
    decreases q - p
  {
    if p < q {
      DigitsEndAt(text, p + 1, q, maxDigit);
    }
  }

  lemma {:induction false} RadixValueIsDecimal(text: string, p: nat, q: nat)
    requires p <= q <= |text| && AllDigits(text[p..q])
    ensures RadixValue(text, p, q, 10, 0) == DecimalNat(text[p..q])
    decreases q - p
  {
    if p < q {
      assert text[p..q][..q - 1 - p] == text[p..q - 1];
      assert text[p..q][q - 1 - p] == text[q - 1];
      RadixValueIsDecimal(text, p, q - 1);
      RadixValueSnoc(text, p, q - 1, 10, 0);
    }
  }

  lemma NineteenDigits(n: nat)
    requires n < HALF
    ensures |DecimalText(n)| <= 19
  {
    assert Ten(9) == 1000000000 && Ten(1) == 10;
    hide Ten;
    PowAdd(10, 9, 9);
    PowAdd(10, 18, 1);
    assert Ten(19) == 10000000000000000000;
    DecimalTextLength(n, 19);
  }

  lemma NotPartOfName(c: char)
    requires !PartOfName(c)
    ensures HexValue(c) >= 16 && c !in {'b', 'f', 'L', 'U', 'x', 'X'} && !IsLetter(c)
  {
  }

  lemma NumberFound(text: string, p: nat, n: nat, q: nat)
    requires n < HALF && Spelled(text, p, DecimalText(n), q) && !PartOfName(At(text, q))
    ensures IsDigit(At(text, p)) && NumberAt(text, p) == Number(n, q)
  {
    hide DecimalText, DigitsEnd, RadixValue, PartOfName, IsLetter, HexValue, DecimalNat;
    DecimalTextStart(n);
    NineteenDigits(n);
    NotPartOfName(At(text, q));
    assert text[p] == DecimalText(n)[0] by { assert text[p..q][0] == text[p]; }
    forall i | p <= i < q ensures IsDigit(text[i]) {
      assert text[i] == text[p..q][i - p];
    }
    if n > 0 {
      DigitsEndAt(text, p, q, 10);
      RadixValueIsDecimal(text, p, q);
    } else {
      ZeroText();
      DigitsEndAt(text, q, q, 10);
      assert RadixValue(text, q, q, 8, 0) == 0 by { NoDigits(text, q, 8, 10); }
    }
  }

  lemma ZeroText()
    ensures DecimalText(0) == "0"
  {
  }

  lemma {:induction false} NameEndAt(text: string, p: nat, q: nat)
    requires p <= q <= |text| && (forall i :: p <= i < q ==> PartOfName(text[i])) && !PartOfName(At(text, q))
    ensures NameEnd(text, p) == q
    decreases q - p
  {
    if p < q {
      NameEndAt(text, p + 1, q);
    }
  }

  lemma NameFound(text: string, p: nat, name: string, q: nat)
    requires IsName(name) && Spelled(text, p, name, q) && !PartOfName(At(text, q))
    ensures NameEnd(text, p) == q && At(text, p) == name[0] && BeginsName(At(text, p)) && !IsDigit(At(text, p))
    ensures At(text, p) == '.' ==> PartOfName(At(text, p + 1))
  {
    hide NameEnd;
    forall i | p <= i < q ensures text[i] == name[i - p] {
      assert text[p..q][i - p] == text[i];
    }
    NameEndAt(text, p, q);
  }

  // ---------------------------------------------------------------- the parser finds the tree

  /** What operand returns for a tree. */
  function AsParsed(m: Option<Outcome>, p: nat): Parsed {
    if m.None? then Outside else Parsed(m.value.e, p, m.value.warned)
  }

  /** What expr goes on with after a tree. */
  function GoesOn(env: Environment, text: string, p: nat, rank: nat, m: Option<Outcome>): Parsed {
    if m.None? then Outside else ParseTail(env, text, p, rank, m.value.e, m.value.warned)
  }

  lemma SkipGap(text: string, p: nat, g: bool, rest: string, q: nat)
    requires Spelled(text, p, Gap(g) + rest, q) && rest != "" && rest[0] != ' '
    ensures Skip(text, p) == p + |Gap(g)| && Spelled(text, Skip(text, p), rest, q)
    ensures At(text, Skip(text, p)) == rest[0]
  {
    SpelledParts(text, p, Gap(g), rest, q);
    assert text[p + |Gap(g)|..q][0] == rest[0];
    assert g ==> text[p..p + |Gap(g)|][0] == ' ';
  }

  lemma NumberOperand(env: Environment, text: string, start: nat)
    requires IsDigit(At(text, Skip(text, start))) && NumberAt(text, Skip(text, start)).Number?
    ensures var n := NumberAt(text, Skip(text, start));
      ParseOperand(env, text, start) == Finish(text, Constant(n.value), n.end, false)
  {
    hide NumberAt, ParseExpr, ApplyUnary, CleanUp, BeginsName;
  }

  lemma NameOperand(env: Environment, text: string, start: nat)
    requires var p := Skip(text, start);
      BeginsName(At(text, p)) && !IsDigit(At(text, p)) && (At(text, p) == '.' ==> PartOfName(At(text, p + 1)))
    ensures var p := Skip(text, start);
      p < |text| && ParseOperand(env, text, start)
        == Finish(text, SymbolOperand(env, text[p..NameEnd(text, p)]), NameEnd(text, p), false)
  {
    hide NumberAt, ParseExpr, ApplyUnary, CleanUp, NameEnd;
  }

  lemma UnaryOperand(env: Environment, text: string, start: nat, c: char)
    requires At(text, Skip(text, start)) == c && c in {'-', '~', '!'}
    ensures ParseOperand(env, text, start) == FinishUnary(text, c, ParseOperand(env, text, Skip(text, start) + 1))
  {
    hide NumberAt, ParseExpr, ApplyUnary, CleanUp, NameEnd;
  }

  lemma ParenOperand(env: Environment, text: string, start: nat)
    requires At(text, Skip(text, start)) == '('
    ensures ParseOperand(env, text, start) == FinishParen(env, text, ParseExpr(env, text, Skip(text, start) + 1, 0))
  {
    hide NumberAt, ParseExpr, ApplyUnary, CleanUp, NameEnd, TooHard;
  }

  lemma CleanConstant(n: Int64)
    ensures CleanUp(Constant(n)) == Constant(n)
  {
  }

  lemma {:induction false} OperandFound(env: Environment, text: string, p: nat, t: Tree, q: nat)
    requires WellFormed(t) && !t.Binary? && Spelled(text, p, Show(t), q) && Ends(text, q)
    ensures ParseOperand(env, text, p) == AsParsed(Meaning(env, t), Skip(text, q))
    decreases t, 0
  {
    hide ParseOperand, ParseExpr, ParseTail, NumberAt, NameEnd, ApplyUnary, CleanUp, DecimalText, IsName, PartOfName, TooHard;
    hide Skip, Spelled, Gap, Ends, OperatorText;
    match t
    case Num(g, n) =>
      NumFound(env, text, p, g, n, q);
    case Sym(g, name) =>
      SymFound(env, text, p, g, name, q);
    case Unary(g, c, x) =>
      UnaryParts(text, p, g, c, Show(x), q);
      OperandFound(env, text, Skip(text, p) + 1, x, q);
      UnaryOperand(env, text, p, c);
      SkipTwice(text, q);
    case Paren(g, x, close) =>
      var m := q - |Gap(close)| - 1;
      ParenParts(text, p, g, Show(x), close, q);
      ExpressionFound(env, text, Skip(text, p) + 1, x, m, 0);
      ParenOperand(env, text, p);
      NothingOnTop(env, text, m, Meaning(env, x));
    case Binary(_, _, _, _) =>
  }

  lemma NumFound(env: Environment, text: string, p: nat, g: bool, n: nat, q: nat)
    requires n < HALF && Spelled(text, p, Gap(g) + DecimalText(n), q) && Ends(text, q)
    ensures ParseOperand(env, text, p) == Parsed(Constant(Wrap(n)), Skip(text, q), false)
  {
    hide ParseOperand, NumberAt, DecimalText, PartOfName, CleanUp;
    DecimalTextStart(n);
    SkipGap(text, p, g, DecimalText(n), q);
    NumberFound(text, Skip(text, p), n, q);
    NumberOperand(env, text, p);
    CleanConstant(n);
    SmallNumber(n);
  }

  lemma SymFound(env: Environment, text: string, p: nat, g: bool, name: string, q: nat)
    requires IsName(name) && Spelled(text, p, Gap(g) + name, q) && Ends(text, q)
    ensures ParseOperand(env, text, p) == Parsed(CleanUp(SymbolOperand(env, name)), Skip(text, q), false)
  {
    hide ParseOperand, NameEnd, IsName, PartOfName, BeginsName, CleanUp, SymbolOperand;
    NameStart(name);
    SkipGap(text, p, g, name, q);
    NameFound(text, Skip(text, p), name, q);
    NameOperand(env, text, p);
  }

  lemma UnaryParts(text: string, p: nat, g: bool, c: char, inner: string, q: nat)
    requires Spelled(text, p, (Gap(g) + [c]) + inner, q) && c != ' '
    ensures At(text, Skip(text, p)) == c && Spelled(text, Skip(text, p) + 1, inner, q)
  {
    assert (Gap(g) + [c]) + inner == Gap(g) + ([c] + inner);
    SkipGap(text, p, g, [c] + inner, q);
    CharAt(text, Skip(text, p), c, inner, q);
  }

  lemma SmallNumber(n: nat)
    requires n < HALF
    ensures Wrap(n) == n
  {
  }

  lemma NameStart(name: string)
    requires IsName(name)
    ensures name != "" && name[0] != ' '
  {
  }

  lemma SkipTwice(text: string, q: nat)
    requires Ends(text, q)
    ensures Skip(text, Skip(text, q)) == Skip(text, q)
  {
    hide PartOfName;
  }

  lemma ParenParts(text: string, p: nat, g: bool, inner: string, close: bool, q: nat)
    requires Spelled(text, p, (Gap(g) + "(") + (inner + (Gap(close) + ")")), q)
    ensures |Gap(close)| + 1 <= q
    ensures var m := q - |Gap(close)| - 1;
      && At(text, Skip(text, p)) == '(' && Spelled(text, Skip(text, p) + 1, inner, m)
      && Ends(text, m) && At(text, Skip(text, m)) == ')' && Skip(text, m) + 1 == q && NextRank(text, m) == 0
  {
    hide At, Skip, Spelled, Gap, PartOfName, OperatorAt, Rank;
    OpenParen(text, p, g, inner + (Gap(close) + ")"), q);
    SpelledParts(text, Skip(text, p) + 1, inner, Gap(close) + ")", q);
    CloseParen(text, q - |Gap(close)| - 1, close, q);
  }

  lemma OpenParen(text: string, p: nat, g: bool, rest: string, q: nat)
    requires Spelled(text, p, (Gap(g) + "(") + rest, q)
    ensures At(text, Skip(text, p)) == '(' && Spelled(text, Skip(text, p) + 1, rest, q)
    ensures |rest| <= q && Skip(text, p) + 1 + |rest| == q
  {
    assert (Gap(g) + "(") + rest == Gap(g) + ("(" + rest);
    SkipGap(text, p, g, "(" + rest, q);
    assert "(" + rest == ['('] + rest;
    CharAt(text, Skip(text, p), '(', rest, q);
  }

  lemma CloseParen(text: string, m: nat, close: bool, q: nat)
    requires Spelled(text, m, Gap(close) + ")", q)
    ensures Ends(text, m) && At(text, Skip(text, m)) == ')' && Skip(text, m) + 1 == q && NextRank(text, m) == 0
  {
    EndsBefore(text, m, close, ")", q);
    assert ")" == [')'] + "";
    CharAt(text, Skip(text, m), ')', "", q);
    CloseIsNoOperator(text, Skip(text, m));
  }

  lemma CloseIsNoOperator(text: string, p: nat)
    requires At(text, p) == ')'
    ensures OperatorAt(text, p) == Illegal
  {
    hide At;
  }

  lemma NothingOnTop(env: Environment, text: string, q: nat, m: Option<Outcome>)
    requires NextRank(text, q) == 0
    ensures GoesOn(env, text, Skip(text, q), 0, m) == AsParsed(m, Skip(text, q))
  {
  }

  lemma {:induction false} ExpressionFound(env: Environment, text: string, p: nat, t: Tree, q: nat, rank: nat)
    requires WellFormed(t) && rank < TopRank(t) && Spelled(text, p, Show(t), q) && Ends(text, q)
    requires t.Binary? ==> NextRank(text, q) <= TopRank(t)
    ensures ParseExpr(env, text, p, rank) == GoesOn(env, text, Skip(text, q), rank, Meaning(env, t))
    decreases t, 1
  {
    hide ParseOperand, ParseExpr, ParseTail, Combine, Ends, Starts, OperatorText, Spelled, Skip, OperatorAt, Rank, Size, Gap;
    match t
    case Binary(l, g, op, r) =>
      var m := p + |Show(l)|;
      BinaryParts(text, p, Show(l), g, op, r, q);
      ExpressionFound(env, text, p, l, m, rank);
      ExpressionFound(env, text, Skip(text, m) + Size(op), r, q, Rank(op));
      TailStep(env, text, Skip(text, m), Skip(text, q), op, rank, Meaning(env, l), Meaning(env, r));
    case _ =>
      OperandFound(env, text, p, t, q);
      OperandOnly(env, text, p, Skip(text, q), rank, Meaning(env, t));
  }

  lemma OperandOnly(env: Environment, text: string, p: nat, q: nat, rank: nat, m: Option<Outcome>)
    requires ParseOperand(env, text, p) == AsParsed(m, q)
    ensures ParseExpr(env, text, p, rank) == GoesOn(env, text, q, rank, m)
  {
    hide ParseOperand, ParseTail;
  }

  lemma BinaryParts(text: string, p: nat, l: string, g: bool, op: Operator, r: Tree, q: nat)
    requires op != Illegal && op != BitOrNot && WellFormed(r)
    requires Spelled(text, p, l + (Gap(g) + (OperatorText(op) + Show(r))), q)
    ensures var m := p + |l|;
      && Spelled(text, p, l, m) && Ends(text, m) && NextRank(text, m) == Rank(op)
      && OperatorAt(text, Skip(text, m)) == op && Spelled(text, Skip(text, m) + Size(op), Show(r), q)
  {
    FirstChar(r);
    OperatorParts(text, p, l, g, op, Show(r), q);
  }

  lemma OperatorParts(text: string, p: nat, l: string, g: bool, op: Operator, r: string, q: nat)
    requires op != Illegal && op != BitOrNot && r != "" && Starts(r[0])
    requires Spelled(text, p, l + (Gap(g) + (OperatorText(op) + r)), q)
    ensures var m := p + |l|;
      && Spelled(text, p, l, m) && Ends(text, m) && NextRank(text, m) == Rank(op)
      && OperatorAt(text, Skip(text, m)) == op && Spelled(text, Skip(text, m) + Size(op), r, q)
  {
    var m := p + |l|;
    OperatorStart(op, r);
    hide *;
    LeftParts(text, p, l, g, OperatorText(op) + r, q);
    OperatorFound(text, Skip(text, m), op, r, q);
    NextOperator(text, m, op);
  }

  lemma NextOperator(text: string, m: nat, op: Operator)
    requires OperatorAt(text, Skip(text, m)) == op
    ensures NextRank(text, m) == Rank(op)
  {
  }

  lemma LeftParts(text: string, p: nat, l: string, g: bool, rest: string, q: nat)
    requires Spelled(text, p, l + (Gap(g) + rest), q) && rest != "" && !PartOfName(rest[0]) && rest[0] != ' '
    ensures Spelled(text, p, l, p + |l|) && Ends(text, p + |l|) && Spelled(text, Skip(text, p + |l|), rest, q)
  {
    hide *;
    SpelledParts(text, p, l, Gap(g) + rest, q);
    EndsBefore(text, p + |l|, g, rest, q);
  }

  lemma OperatorStart(op: Operator, r: string)
    requires op != Illegal && op != BitOrNot
    ensures OperatorText(op) + r != ""
    ensures !PartOfName((OperatorText(op) + r)[0]) && (OperatorText(op) + r)[0] != ' '
  {
    assert (OperatorText(op) + r)[0] == OperatorText(op)[0];
  }

  /** One operator of the tail: its right operand is found up to an operator that is no higher. */
  lemma TailStep(env: Environment, text: string, p: nat, q: nat, op: Operator, rank: nat,
                 l: Option<Outcome>, r: Option<Outcome>)
    requires OperatorAt(text, p) == op && Rank(op) > rank && Rank(OperatorAt(text, q)) <= Rank(op)
    requires ParseExpr(env, text, p + Size(op), Rank(op)) == GoesOn(env, text, q, Rank(op), r)
    ensures GoesOn(env, text, p, rank, l) ==
      if l.None? || r.None? || Combine(env, op, l.value.e, r.value.e).None? then Outside else
        var c := Combine(env, op, l.value.e, r.value.e).value;
        ParseTail(env, text, q, rank, c.e, l.value.warned || r.value.warned || c.warned)
  {
    hide Combine, Rank, ParseExpr, OperatorAt, Size;
  }
}
