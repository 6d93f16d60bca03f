/** The expression parser (cctools/as/expr.c): operands, and operators by precedence. */
module Parser {
  import opened Arith
  import opened Decimal
  import opened Operators
  import opened Wrappers

  // ---------------------------------------------------------------- the text

  /** SKIP_WHITESPACE: the scrubber leaves no more than one blank. */
  function Skip(text: string, p: nat): (q: nat)
    ensures p <= q <= p + 1
  {
    if At(text, p) == ' ' then p + 1 else p
  }

  predicate BeginsName(c: char) {
    'A' <= c <= 'Z' || 'a' <= c <= 'z' || c in {'_', '$', '.'} || c as int >= 128
  }

  predicate PartOfName(c: char) {
    BeginsName(c) || IsDigit(c)
  }

  function NameEnd(text: string, p: nat): (q: nat)
    ensures p <= q && (p <= |text| ==> q <= |text|)
    decreases |text| - p
  {
    if p < |text| && PartOfName(text[p]) then NameEnd(text, p + 1) else p
  }

  // ---------------------------------------------------------------- numbers

  /** hex_value; letters that are no digits get a value that is too high for every radix. */
  function HexValue(c: char): nat {
    if IsDigit(c) then DigitOf(c)
    else if 'a' <= c <= 'f' then c as nat - 'a' as nat + 10
    else if 'A' <= c <= 'F' then c as nat - 'A' as nat + 10
    else 99
  }

  function DigitsEnd(text: string, p: nat, maxDigit: nat): (q: nat)
    requires maxDigit <= 16
    ensures p <= q && (p <= |text| ==> q <= |text|)
    decreases |text| - p
  {
    if HexValue(At(text, p)) < maxDigit then DigitsEnd(text, p + 1, maxDigit) else p
  }

  /** The number that the digits from p to q make when they follow the value so far. */
  function RadixValue(text: string, p: nat, q: nat, radix: nat, value: nat): nat
    decreases q - p
  {
    if p >= q then value else RadixValue(text, p + 1, q, radix, value * radix + HexValue(At(text, p)))
  }

  /** The end of L's and a U that follow a number: LL, ULL or neither. */
  function SuffixEnd(text: string, p: nat): (q: nat)
    ensures p <= q
  {
    if At(text, p) == 'L' && At(text, p + 1) == 'L' then p + 2
    else if At(text, p) == 'U' && At(text, p + 1) == 'L' && At(text, p + 2) == 'L' then p + 3
    else p
  }

  /** A number, or something that the model leaves out: local labels, floating point and bignums. */
  datatype Lexeme = Unmodelled | Number(value: Int64, end: nat)

  predicate IsLetter(c: char) {
    'A' <= c <= 'Z' || 'a' <= c <= 'z'
  }

  function DigitsAt(text: string, p: nat, radix: nat, maxDigit: nat, tooMany: nat): Lexeme
    requires maxDigit <= 16
  {
    var q := DigitsEnd(text, p, maxDigit);
    if q - p >= tooMany || At(text, q) in {'b', 'f'} then Unmodelled
    else Number(Wrap(RadixValue(text, p, q, radix, 0)), SuffixEnd(text, q))
  }

  /** A number starts at p. Octal numbers may have the digits 8 and 9. */
  function NumberAt(text: string, p: nat): (n: Lexeme)
    requires IsDigit(At(text, p))
    ensures n.Number? ==> n.end > p
  {
    var c := At(text, p + 1);
    if At(text, p) != '0' then DigitsAt(text, p, 10, 10, 22)
    else if c in {'x', 'X'} then DigitsAt(text, p + 2, 16, 16, 18)
    else if IsLetter(c) && c !in {'U', 'L'} then Unmodelled
    else DigitsAt(text, p + 1, 8, 10, 22)
  }

  // ---------------------------------------------------------------- the parser as a function

  /** An expression, where the text goes on, and whether a warning was given. */
  datatype Parsed = Outside | Parsed(e: Expression, p: nat, warned: bool)

  /** How much text there is from p on. */
  function Rest(text: string, p: nat): nat {
    if p < |text| then |text| - p else 0
  }

  /** The end of operand. */
  function Finish(text: string, e: Expression, p: nat, warned: bool): Parsed {
    Parsed(CleanUp(e), Skip(text, p), warned)
  }

  function SymbolOperand(env: Environment, name: string): Expression {
    match env.Lookup(name)
    case Fixed(v) => Constant(v)
    case Placed(_, _, _) => Expression(Sect, Some(name), None, 0, false)
    case Undefined => Expression(Unknown, Some(name), None, 0, false)
  }

  /** expression() warns of a lone subtracted symbol that is defined; nothing else comes of it. */
  predicate TooHard(env: Environment, e: Expression) {
    e.seg.Diffsect? && e.add.None? && e.subtract.Some? && !env.Lookup(e.subtract.value).Undefined?
  }

  /** A character constant is a signed char. */
  function CharValue(c: char): Int64 {
    var n := c as int % 256;
    if n >= 128 then n - 256 else n
  }

  /** After an expression in parentheses. */
  function FinishParen(env: Environment, text: string, r: Parsed): Parsed {
    match r
    case Outside => Outside
    case Parsed(e, q, warned) =>
      if At(text, q) == ')' then Finish(text, e, q + 1, warned || TooHard(env, e)) else Finish(text, e, q, true)
  }

  /** After the operand of a unary operator. */
  function FinishUnary(text: string, c: char, r: Parsed): Parsed {
    match r
    case Outside => Outside
    case Parsed(e, q, warned) =>
      var u := ApplyUnary(c, e);
      Finish(text, u.e, q, warned || u.warned)
  }

  function ParseOperand(env: Environment, text: string, start: nat): (r: Parsed)
    ensures r.Parsed? ==> r.p >= start
    decreases Rest(text, start), 1
  {
    var p := Skip(text, start);
    var c := At(text, p);
    if IsDigit(c) then
      match NumberAt(text, p)
      case Unmodelled => Outside
      case Number(v, end) => Finish(text, Constant(v), end, false)
    else if c == '"' || (c == '.' && !PartOfName(At(text, p + 1))) then
      Outside
    else if BeginsName(c) then
      Finish(text, SymbolOperand(env, text[p..NameEnd(text, p)]), NameEnd(text, p), false)
    else if c == '(' then
      FinishParen(env, text, ParseExpr(env, text, p + 1, 0))
    else if c in {'~', '-', '!'} then
      FinishUnary(text, c, ParseOperand(env, text, p + 1))
    else if c == '\'' then
      Finish(text, Constant(CharValue(At(text, p + 1))), p + 2, false)
    else
      Finish(text, Expression(Absent, None, None, 0, false), p, false)
  }

  /** Operators of a rank above the given one, one after the other. */
  function ParseTail(env: Environment, text: string, p: nat, rank: nat, left: Expression, warned: bool): (r: Parsed)
    ensures r.Parsed? ==> r.p >= p
    decreases Rest(text, p), 0
  {
    var op := OperatorAt(text, p);
    if Rank(op) <= rank then Parsed(left, p, warned) else
      match ParseExpr(env, text, p + Size(op), Rank(op))
      case Outside => Outside
      case Parsed(right, q, warned') =>
        match Combine(env, op, left, right)
        case None => Outside
        case Some(done) => ParseTail(env, text, q, rank, done.e, warned || warned' || done.warned)
  }

  function ParseExpr(env: Environment, text: string, p: nat, rank: nat): (r: Parsed)
    ensures r.Parsed? ==> r.p >= p
    decreases Rest(text, p), 2
  {
    match ParseOperand(env, text, p)
    case Outside => Outside
    case Parsed(left, q, warned) => ParseTail(env, text, q, rank, left, warned)
  }

  // ---------------------------------------------------------------- the parser as a program

  /** The outcome of a call that started at p with warnings given or not. */
  predicate Answers(r: Parsed, outside: bool, e: Expression, p: nat, warnedBefore: bool, warnedAfter: bool) {
    match r
    case Outside => outside
    case Parsed(e', p', warned') => !outside && e == e' && p == p' && warnedAfter == (warnedBefore || warned')
  }

  /** The global input pointer, and whether a warning was given. */
  class Input {
    const env: Environment
    const text: string
    var pointer: nat
    var warned: bool

    constructor (env: Environment, text: string)
      ensures this.env == env && this.text == text && pointer == 0 && !warned
    {
      this.env, this.text, pointer, warned := env, text, 0, false;
    }

    method SkipWhitespace()
      modifies this`pointer
      ensures pointer == Skip(text, old(pointer))
    {
      if At(text, pointer) == ' ' {
        pointer := pointer + 1;
      }
    }

    /** An integer of the given radix; the digits are multiplied up in 64 bits. */
    method Digits(radix: nat, maxDigit: nat, tooMany: nat) returns (outside: bool, number: Int64)
      requires maxDigit <= 16
      modifies this`pointer
      ensures match DigitsAt(text, old(pointer), radix, maxDigit, tooMany)
        case Unmodelled => outside
        case Number(v, end) => !outside && number == v && pointer == end
    {
      hide RadixValue, DigitsEnd, HexValue;
      var start := pointer;
      number := 0;
      NoDigits(text, start, radix, maxDigit);
      while HexValue(At(text, pointer)) < maxDigit
        invariant pointer >= start && DigitsEnd(text, pointer, maxDigit) == DigitsEnd(text, start, maxDigit)
        invariant number == Wrap(RadixValue(text, start, pointer, radix, 0))
        decreases Rest(text, pointer)
      {
        OneDigit(text, start, pointer, radix, maxDigit, number);
        number := Wrap(number * radix + HexValue(At(text, pointer)));
        pointer := pointer + 1;
      }
      DigitsStop(text, pointer, maxDigit);
      outside := pointer - start >= tooMany || At(text, pointer) in {'b', 'f'};
      pointer := SuffixEnd(text, pointer);
    }

    method Integer() returns (outside: bool, number: Int64)
      requires IsDigit(At(text, pointer))
      modifies this`pointer
      ensures match NumberAt(text, old(pointer))
        case Unmodelled => outside
        case Number(v, end) => !outside && number == v && pointer == end
    {
      hide DigitsAt;
      if At(text, pointer) != '0' {
        outside, number := Digits(10, 10, 22);
      } else {
        pointer := pointer + 1;
        var c := At(text, pointer);
        if c in {'x', 'X'} {
          pointer := pointer + 1;
          outside, number := Digits(16, 16, 18);
        } else if IsLetter(c) && c !in {'U', 'L'} {
          outside, number := true, 0;
        } else {
          outside, number := Digits(8, 10, 22);
        }
      }
    }

    /** get_symbol_end. */
    method SymbolName() returns (name: string)
      requires BeginsName(At(text, pointer))
      modifies this`pointer
      ensures old(pointer) <= pointer == NameEnd(text, old(pointer)) <= |text| && name == text[old(pointer)..pointer]
    {
      hide NameEnd;
      var start := pointer;
      while PartOfName(At(text, pointer)) && pointer < |text|
        invariant start <= pointer <= |text| && NameEnd(text, pointer) == NameEnd(text, start)
      {
        NameEndStep(text, pointer);
        pointer := pointer + 1;
      }
      NameEndStep(text, pointer);
      name := text[start..pointer];
    }

    /** operand: outside tells of what the model leaves out. */
    method Operand() returns (outside: bool, e: Expression)
      modifies this
      ensures Answers(ParseOperand(env, text, old(pointer)), outside, e, pointer, old(warned), warned)
      decreases Rest(text, pointer), 1
    {
      hide NumberAt, CleanUp, ApplyUnary, NameEnd, SymbolOperand, TooHard, BeginsName, PartOfName, CharValue, ParseExpr, IsDigit;
      outside, e := false, Expression(Absent, None, None, 0, false);
      SkipWhitespace();
      var c := At(text, pointer);
      if IsDigit(c) {
        var number;
        outside, number := Integer();
        e := Constant(number);
      } else if c == '"' || (c == '.' && !PartOfName(At(text, pointer + 1))) {
        outside := true;
      } else if BeginsName(c) {
        var name := SymbolName();
        e := SymbolOperand(env, name);
      } else if c == '(' {
        pointer := pointer + 1;
        outside, e := Expr(0);
        warned := warned || TooHard(env, e);
        if At(text, pointer) == ')' {
          pointer := pointer + 1;
        } else {
          warned := true;
        }
      } else if c in {'~', '-', '!'} {
        pointer := pointer + 1;
        outside, e := Operand();
        var u := ApplyUnary(c, e);
        e, warned := u.e, warned || u.warned;
      } else if c == '\'' {
        e := Constant(CharValue(At(text, pointer + 1)));
        pointer := pointer + 2;
      }
      e := CleanUp(e);
      SkipWhitespace();
    }

    /** expr: operands joined by operators of a rank above the given one. */
    method Expr(rank: nat) returns (outside: bool, e: Expression)
      modifies this
      ensures Answers(ParseExpr(env, text, old(pointer), rank), outside, e, pointer, old(warned), warned)
      decreases Rest(text, pointer), 2
    {
      hide ParseOperand, OperatorOf, Rank, Size, Combine;
      ghost var start := pointer;
      outside, e := Operand();
      if outside {
        return;
      }
      ghost var w := ParseOperand(env, text, start).warned;
      var op := OperatorAt(text, pointer);
      while Rank(op) > rank
        invariant pointer >= start && op == OperatorAt(text, pointer)
        invariant warned == (old(warned) || w)
        invariant ParseExpr(env, text, start, rank) == ParseTail(env, text, pointer, rank, e, w)
        decreases Rest(text, pointer)
      {
        OperatorIsText(text, pointer);
        ghost var at := pointer;
        pointer := pointer + Size(op);
        var right;
        outside, right := Expr(Rank(op));
        if outside {
          return;
        }
        var done := Combine(env, op, e, right);
        if done.None? {
          outside := true;
          return;
        }
        w := w || ParseExpr(env, text, at + Size(op), Rank(op)).warned || done.value.warned;
        e, warned := done.value.e, warned || done.value.warned;
        op := OperatorAt(text, pointer);
      }
    }
  }

  lemma OperatorIsText(text: string, p: nat)
    requires Rank(OperatorAt(text, p)) > 0
    ensures p < |text| && Size(OperatorAt(text, p)) > 0
  {
  }

  lemma NoDigits(text: string, p: nat, radix: nat, maxDigit: nat)
    ensures RadixValue(text, p, p, radix, 0) == 0
  {
  }

  lemma DigitsStop(text: string, p: nat, maxDigit: nat)
    requires maxDigit <= 16 && HexValue(At(text, p)) >= maxDigit
    ensures DigitsEnd(text, p, maxDigit) == p
  {
  }

  /** One digit more, in 64 bits or not. */
  lemma OneDigit(text: string, start: nat, p: nat, radix: nat, maxDigit: nat, number: Int64)
    requires start <= p && maxDigit <= 16 && HexValue(At(text, p)) < maxDigit
    requires number == Wrap(RadixValue(text, start, p, radix, 0))
    ensures p < |text| && DigitsEnd(text, p, maxDigit) == DigitsEnd(text, p + 1, maxDigit)
    ensures Wrap(number * radix + HexValue(At(text, p))) == Wrap(RadixValue(text, start, p + 1, radix, 0))
  {
    hide RadixValue;
    RadixValueSnoc(text, start, p, radix, 0);
    WrapStep(RadixValue(text, start, p, radix, 0), radix, HexValue(At(text, p)));
  }

  lemma WrapStep(a: int, m: int, d: int)
    ensures Wrap(Wrap(a) * m + d) == Wrap(a * m + d)
  {
    var k := (a + HALF) / WHOLE;
    assert Wrap(a) == a - k * WHOLE;
    assert Wrap(a) * m + d == a * m + d - (k * m) * WHOLE;
    WrapPeriod(a * m + d, -(k * m));
  }

  lemma WrapPeriod(x: int, k: int)
    ensures Wrap(x + k * WHOLE) == Wrap(x)
  {
    var q, r := (x + HALF) / WHOLE, (x + HALF) % WHOLE;
    assert x + k * WHOLE + HALF == (q + k) * WHOLE + r;
    DivModUnique(x + k * WHOLE + HALF, WHOLE, q + k, r);
  }

  lemma {:induction false} RadixValueSnoc(text: string, p: nat, q: nat, radix: nat, value: nat)
    requires p <= q
    ensures RadixValue(text, p, q + 1, radix, value)
      == RadixValue(text, p, q, radix, value) * radix + HexValue(At(text, q))
    decreases q - p
  {
    if p < q {
      RadixValueSnoc(text, p + 1, q, radix, value * radix + HexValue(At(text, p)));
    }
  }

  lemma NameEndStep(text: string, p: nat)
    ensures NameEnd(text, p) == if p < |text| && PartOfName(text[p]) then NameEnd(text, p + 1) else p
  {
  }
}
