/** Expressions of the assembler and the operations on them (cctools/as/expr.c). */
module Operators {
  import opened Arith
  import opened Decimal
  import opened Wrappers
  import Frags = Relax

  const HALF := 0x8000_0000_0000_0000
  const WHOLE := 0x1_0000_0000_0000_0000

  type Int64 = x: int | -HALF <= x < HALF

  /** What is left of a number in a signed 64-bit word. */
  function Wrap(x: int): Int64 {
    (x + HALF) % WHOLE - HALF
  }

  // ---------------------------------------------------------------- operators

  datatype Operator =
    | Illegal
    | Multiply | Divide | Modulus
    | Add | Subtract
    | RightShift | LeftShift
    | LessThan | GreaterThan | LessOrEqual | GreaterOrEqual
    | Equal | NotEqual
    | BitAnd | BitExclusiveOr | BitInclusiveOr | BitOrNot
    | LogicalAnd | LogicalOr

  /** op_rank. */
  function Rank(op: Operator): (rank: nat)
    ensures rank == 0 <==> op.Illegal?
    ensures rank <= 10
  {
    match op
    case Illegal => 0
    case Multiply | Divide | Modulus => 10
    case Add | Subtract => 9
    case RightShift | LeftShift => 8
    case LessThan | GreaterThan | LessOrEqual | GreaterOrEqual => 7
    case Equal | NotEqual => 6
    case BitAnd => 5
    case BitExclusiveOr => 4
    case BitInclusiveOr | BitOrNot => 3
    case LogicalAnd => 2
    case LogicalOr => 1
  }

  /** op_size. */
  function Size(op: Operator): nat {
    match op
    case Illegal => 0
    case RightShift | LeftShift | LessOrEqual | GreaterOrEqual | Equal | NotEqual | LogicalAnd | LogicalOr => 2
    case _ => 1
  }

  /** op_encoding and two_char_op_encoding: the operator that starts with the character c, before the character d.
      A single exclamation mark is taken for the first half of !=, and so BitOrNot is never found. */
  function OperatorOf(c: char, d: char): Operator {
    match c
    case '*' => Multiply
    case '/' => Divide
    case '%' => Modulus
    case '+' => Add
    case '-' => Subtract
    case '^' => BitExclusiveOr
    case '<' => if d == '<' then LeftShift else if d == '=' then LessOrEqual else if d == '>' then NotEqual else LessThan
    case '>' => if d == '>' then RightShift else if d == '=' then GreaterOrEqual else GreaterThan
    case '=' => if d == '=' then Equal else Illegal
    case '!' => NotEqual
    case '&' => if d == '&' then LogicalAnd else BitAnd
    case '|' => if d == '|' then LogicalOr else BitInclusiveOr
    case _ => Illegal
  }

  function OperatorAt(text: string, p: nat): (op: Operator)
    ensures !op.Illegal? ==> p < |text|
  {
    OperatorOf(At(text, p), At(text, p + 1))
  }

  /** Or-not, which the ranks know as an exclamation mark between operands, is never found: the mark is taken for a
      not-equal of two characters, whatever the second one is. */
  lemma OrNotIsNeverFound(text: string, p: nat)
    ensures OperatorAt(text, p) != BitOrNot
    ensures At(text, p) == '!' ==> OperatorAt(text, p) == NotEqual && Size(OperatorAt(text, p)) == 2
  {
  }

  // ---------------------------------------------------------------- arithmetic

  datatype BitOperation = And | Or | ExclusiveOr

  predicate Joined(o: BitOperation, x: bool, y: bool) {
    match o
    case And => x && y
    case Or => x || y
    case ExclusiveOr => x != y
  }

  /** Two numbers joined bit by bit: n bits, from the lowest on, and the sign. */
  function Bitwise(o: BitOperation, a: int, b: int, n: nat): (r: int)
    ensures -(Pow2(n) as int) <= r < Pow2(n)
    decreases n
  {
    if n == 0 then if Joined(o, a < 0, b < 0) then -1 else 0
    else 2 * Bitwise(o, a / 2, b / 2, n - 1) + if Joined(o, a % 2 == 1, b % 2 == 1) then 1 else 0
  }

  function Join(o: BitOperation, a: Int64, b: Int64): Int64 {
    SignBit();
    Bitwise(o, a, b, 63)
  }

  lemma SignBit()
    ensures Pow2(63) == HALF
  {
    assert Pow2(7) == 128;
    hide Pow2;
    Pow2Words();
    Pow2Add(16, 32);
    Pow2Add(7, 8);
    assert Pow2(8) * Pow2(8) == Pow2(16) by { Pow2Add(8, 8); }
    Pow2Add(15, 48);
    assert Pow2(15) == 0x8000 by { Pow2Twice(15); }
  }

  function Complement(x: Int64): Int64 {
    -1 - x as int
  }

  function Negate(x: Int64): Int64 {
    Wrap(-(x as int))
  }

  function Truth(b: bool): Int64 {
    if b then 1 else 0
  }

  function Abs(x: int): nat {
    if x < 0 then -x else x
  }

  /** Division and remainder that truncate towards zero. */
  function Quotient(a: int, b: int): int
    requires b != 0
  {
    if (a < 0) == (b < 0) then Abs(a) / Abs(b) else -(Abs(a) / Abs(b))
  }

  function Remainder(a: int, b: int): int
    requires b != 0
  {
    if a < 0 then -(Abs(a) % Abs(b)) else Abs(a) % Abs(b)
  }

  /** A shift by less than nothing or by 64 or more, and the one quotient that does not fit, have no
      meaning in C. */
  predicate IsDefined(op: Operator, a: Int64, b: Int64) {
    match op
    case LeftShift | RightShift => 0 <= b < 64
    case Divide | Modulus => !(a == -HALF && b == -1)
    case Illegal => false
    case _ => true
  }

  /** The value of an operation on constants; a division by zero gives zero. */
  function Compute(op: Operator, a: Int64, b: Int64): Int64
    requires IsDefined(op, a, b)
  {
    match op
    case Multiply => Wrap(a * b)
    case Divide => if b == 0 then 0 else Wrap(Quotient(a, b))
    case Modulus => if b == 0 then 0 else Wrap(Remainder(a, b))
    case Add => Wrap(a + b)
    case Subtract => Wrap(a - b)
    case LeftShift => Wrap(a * Pow2(b))
    case RightShift => Wrap(a / Pow2(b))
    case LessThan => Truth(a < b)
    case GreaterThan => Truth(a > b)
    case LessOrEqual => Truth(a <= b)
    case GreaterOrEqual => Truth(a >= b)
    case Equal => Truth(a == b)
    case NotEqual => Truth(a != b)
    case BitAnd => Join(And, a, b)
    case BitExclusiveOr => Join(ExclusiveOr, a, b)
    case BitInclusiveOr => Join(Or, a, b)
    case BitOrNot => Join(Or, a, Complement(b))
    case LogicalAnd => Truth(a != 0 && b != 0)
    case _ => Truth(a != 0 || b != 0)
  }

  function UnaryValue(c: char, x: Int64): Int64 {
    if c == '-' then Negate(x) else if c == '!' then Truth(x == 0) else Complement(x)
  }

  predicate DividesByZero(op: Operator, b: Int64) {
    op in {Divide, Modulus} && b == 0
  }

  // ---------------------------------------------------------------- expressions

  /** The segment of an expression. Bignums and flonums are not part of the model. */
  datatype Segment = Absent | Absolute | Sect | Unknown | Diffsect

  /** expressionS: add - subtract + number. */
  datatype Expression = Expression(seg: Segment, add: Option<string>, subtract: Option<string>, number: Int64, halved: bool)

  function Constant(n: Int64): Expression {
    Expression(Absolute, None, None, n, false)
  }

  /** What is known of a symbol: its constant value; its frag and its place therein; or nothing yet. */
  datatype Symbol = Fixed(value: Int64) | Placed(section: nat, frag: nat, offset: nat) | Undefined

  /** The symbol table, the chains of frags by section, and whether -dynamic was given. */
  datatype Environment = Environment(symbols: map<string, Symbol>, chains: map<nat, seq<Frags.Shape>>, dynamic: bool)
  {
    function Lookup(name: string): Symbol {
      if name in symbols then symbols[name] else Undefined
    }
  }

  /** clean_up_expression. */
  function CleanUp(e: Expression): Expression {
    match e.seg
    case Absent => e.(add := None, subtract := None, number := 0)
    case Absolute => e.(add := None, subtract := None)
    case Sect | Unknown => e.(subtract := None)
    case Diffsect => if e.subtract == e.add then e.(add := None, subtract := None, seg := Absolute) else e
  }

  /** What expr_part makes of two symbols: what is left, its segment (none when it cannot be relocated),
      and whether there is a warning that two symbols are forgotten. */
  datatype Part = Part(symbol: Option<string>, seg: Option<Segment>, warned: bool)

  function SegmentOf(env: Environment, name: string): Segment {
    if env.Lookup(name).Undefined? then Unknown else Sect
  }

  /** expr_part. */
  function ExprPart(env: Environment, a: Option<string>, b: Option<string>): Part {
    match (a, b)
    case (Some(x), Some(y)) =>
      if env.Lookup(x).Undefined? || env.Lookup(y).Undefined? then Part(None, None, false)
      else Part(None, Some(Absolute), true)
    case (Some(x), None) => Part(a, Some(SegmentOf(env, x)), false)
    case (None, Some(y)) => Part(b, Some(SegmentOf(env, y)), false)
    case (None, None) => Part(None, Some(Absolute), false)
  }

  /** An expression, and whether a warning was given on the way. */
  datatype Outcome = Outcome(e: Expression, warned: bool)

  /** Adds right to left, symbols and numbers apart. Two symbols left over make a difference. */
  function Plus(env: Environment, left: Expression, right: Expression): Outcome {
    var l, r := CleanUp(left), CleanUp(right);
    var adds, subtracts := ExprPart(env, l.add, r.add), ExprPart(env, l.subtract, r.subtract);
    var lost := adds.seg.None? || subtracts.seg.None?;
    var seg :=
      if lost then Absolute
      else if subtracts.seg.value != Absolute then Diffsect
      else if l.seg != Diffsect then adds.seg.value
      else l.seg;
    var number := Wrap((if lost then 0 else l.number) + r.number);
    Outcome(CleanUp(Expression(seg, adds.symbol, subtracts.symbol, number, l.halved)),
            lost || adds.warned || subtracts.warned)
  }

  /** Subtraction is addition with the symbols exchanged and the number negated. */
  function Reversed(e: Expression): Expression {
    Expression(if e.add.Some? then Diffsect else e.seg, e.subtract, e.add, Negate(e.number), e.halved)
  }

  /** The bytes between the starts of two frags of a chain, if both are there in this order with only fills
      and alignments between them, counted in 32 bits and rounded up as if the first frag stood at address zero. The
      maximum of an alignment is not looked at. */
  function ChainSize(chain: seq<Frags.Shape>, from: nat, to: nat, size: nat): Option<nat>
    decreases |chain| - from
  {
    if from == to && to < |chain| then Some(size)
    else if from >= |chain| then None
    else match chain[from].tail
      case Fill(repeat, n) => ChainSize(chain, from + 1, to, (size + chain[from].fix + repeat * n) % UINT32)
      case Align(power, _) =>
        ChainSize(chain, from + 1, to, RoundUp((size + chain[from].fix) % UINT32, Pow2(power)) % UINT32)
      case Branch(_, _) => None
  }

  const UINT32 := 0x1_0000_0000

  /** rnd. */
  function RoundUp(v: nat, r: nat): nat {
    if r == 0 then v else (v + r - 1) / r * r
  }

  /** try_to_make_absolute. Across frags the number that the expression had is dropped. */
  function MakeAbsolute(env: Environment, e: Expression): Expression {
    if !e.seg.Diffsect? || env.dynamic || e.add.None? || e.subtract.None? then e
    else match (env.Lookup(e.add.value), env.Lookup(e.subtract.value))
      case (Placed(s, f, x), Placed(s', f', y)) =>
        if s == s' && f == f' then
          if e.number + x - y >= 0 then Constant(Wrap(e.number + x - y)).(halved := e.halved) else e
        else
          var size := if s == s' && s in env.chains then ChainSize(env.chains[s], f', f, 0) else None;
          if size.Some? then Constant(Wrap(size.value + x - y)).(halved := e.halved) else e
      case _ => e
  }

  /** The other operations, which want constants. None is an operation without a meaning in C. */
  function Arithmetic(env: Environment, op: Operator, left: Expression, right: Expression): Option<Outcome> {
    if left.seg.Unknown? || right.seg.Unknown? then
      Some(Outcome(left.(seg := Absolute, number := 0), true))
    else
      var l, r := MakeAbsolute(env, left), MakeAbsolute(env, right);
      if l.seg.Diffsect? && r.seg.Absolute? && op.Divide? && r.number == 2 then
        Some(Outcome(l.(halved := true), false))
      else if !l.seg.Absolute? || !r.seg.Absolute? then
        Some(Outcome(l.(seg := Absolute, add := None, subtract := None, number := 0), true))
      else if !IsDefined(op, l.number, r.number) then
        None
      else
        Some(Outcome(l.(add := None, subtract := None, number := Compute(op, l.number, r.number)), DividesByZero(op, r.number)))
  }

  /** One operation of expr. A missing right operand also makes the left one zero. */
  function Combine(env: Environment, op: Operator, left: Expression, right: Expression): Option<Outcome> {
    var missing := right.seg.Absent?;
    var l := if missing then Constant(0).(halved := left.halved) else left;
    var done :=
      if op.Subtract? then Some(Plus(env, l, Reversed(right)))
      else if op.Add? then Some(Plus(env, l, right))
      else Arithmetic(env, op, l, right);
    if done.None? then None else Some(Outcome(done.value.e, done.value.warned || missing))
  }

  /** Unary operators, on constants; a minus also on a symbol. The number beside a symbol is not negated. */
  function ApplyUnary(c: char, e: Expression): Outcome {
    if e.seg.Absolute? then
      Outcome(CleanUp(e.(number := UnaryValue(c, e.number))), false)
    else if e.seg in {Sect, Unknown} && c == '-' then
      Outcome(CleanUp(e.(subtract := e.add, add := None, seg := Diffsect)), false)
    else
      Outcome(CleanUp(e), true)
  }
}
