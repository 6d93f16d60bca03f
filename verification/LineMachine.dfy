/** The line number state machine of DWARF 3, sections 6.2.2 and 6.2.5, for the header that
    out_debug_line of cctools/as/dwarf2dbg.c writes. */
module LineMachine {
  import opened Leb128
  import opened Wrappers

  // The header fields.
  const OPCODE_BASE := 13
  const LINE_BASE := -5
  const LINE_RANGE := 14

  // The standard opcodes.
  const EXTENDED_OP: byte := 0
  const COPY: byte := 1
  const ADVANCE_PC: byte := 2
  const ADVANCE_LINE: byte := 3
  const SET_FILE: byte := 4
  const SET_COLUMN: byte := 5
  const NEGATE_STMT: byte := 6
  const SET_BASIC_BLOCK: byte := 7
  const CONST_ADD_PC: byte := 8
  const FIXED_ADVANCE_PC: byte := 9
  const SET_PROLOGUE_END: byte := 10
  const SET_EPILOGUE_BEGIN: byte := 11
  const SET_ISA: byte := 12

  // The extended opcodes.
  const END_SEQUENCE: byte := 1
  const SET_ADDRESS: byte := 2

  /** The line register is an unsigned integer of 32 bits. */
  const WORD := 0x1_0000_0000

  /** The registers; a row of the line table is a copy of them. */
  datatype Registers = Registers(
    address: nat, file: nat, line: nat, column: nat, isStmt: bool, basicBlock: bool,
    endSequence: bool, prologueEnd: bool, epilogueBegin: bool, isa: nat)

  const INITIAL := Registers(0, 1, 1, 0, true, false, false, false, false, 0)

  /** What is left to run after one instruction, and the rows that it appended. */
  datatype Effect = Effect(rest: seq<byte>, regs: Registers, rows: seq<Registers>)

  function Advanced(r: Registers, addressDelta: int, lineDelta: int): (r': Registers)
    requires addressDelta >= 0
  {
    r.(address := r.address + addressDelta, line := (r.line + lineDelta) % WORD)
  }

  /** The registers once a row has been appended. */
  function Cleared(r: Registers): Registers {
    r.(basicBlock := false, prologueEnd := false, epilogueBegin := false)
  }

  function AppendRow(rest: seq<byte>, r: Registers): Effect {
    Effect(rest, Cleared(r), [r])
  }

  /** The number that little-endian bytes denote. */
  function LittleEndian(s: seq<byte>): nat {
    if s == [] then 0 else s[0] as int + 256 * LittleEndian(s[1..])
  }

  function StepExtended(s: seq<byte>, r: Registers): (e: Option<Effect>)
    ensures e.Some? ==> |e.value.rest| <= |s|
  {
    match ReadUleb(s)
    case None => None
    case Some(Decoded(length, rest)) =>
      if length == 0 || length > |rest| then None
      else if rest[0] == END_SEQUENCE then Some(Effect(rest[length..], INITIAL, [r.(endSequence := true)]))
      else if rest[0] == SET_ADDRESS then
        Some(Effect(rest[length..], r.(address := LittleEndian(rest[1..length])), []))
      else Some(Effect(rest[length..], r, []))
  }

  function StepSpecial(opcode: int, rest: seq<byte>, r: Registers): Effect
    requires OPCODE_BASE <= opcode < 256
  {
    var adjusted := opcode - OPCODE_BASE;
    AppendRow(rest, Advanced(r, adjusted / LINE_RANGE, LINE_BASE + adjusted % LINE_RANGE))
  }

  /** Instructions with one unsigned operand. */
  function StepOperand(opcode: byte, s: seq<byte>, r: Registers): (e: Option<Effect>)
    ensures e.Some? ==> |e.value.rest| <= |s|
  {
    match ReadUleb(s)
    case None => None
    case Some(Decoded(n, rest)) =>
      if opcode == ADVANCE_PC then Some(Effect(rest, Advanced(r, n, 0), []))
      else if opcode == SET_FILE then Some(Effect(rest, r.(file := n), []))
      else if opcode == SET_COLUMN then Some(Effect(rest, r.(column := n), []))
      else Some(Effect(rest, r.(isa := n), []))
  }

  /** One instruction. */
  function Step(s: seq<byte>, r: Registers): (e: Option<Effect>)
    requires s != []
    ensures e.Some? ==> |e.value.rest| < |s|
  {
    var opcode, rest := s[0], s[1..];
    if opcode as int >= OPCODE_BASE then Some(StepSpecial(opcode as int, rest, r))
    else if opcode == EXTENDED_OP then StepExtended(rest, r)
    else if opcode == COPY then Some(AppendRow(rest, r))
    else if opcode == ADVANCE_LINE then
      match ReadSleb(rest) {
        case None => None
        case Some(Decoded(n, rest')) => Some(Effect(rest', Advanced(r, 0, n), []))
      }
    else if opcode == NEGATE_STMT then Some(Effect(rest, r.(isStmt := !r.isStmt), []))
    else if opcode == SET_BASIC_BLOCK then Some(Effect(rest, r.(basicBlock := true), []))
    else if opcode == CONST_ADD_PC then Some(Effect(rest, Advanced(r, (255 - OPCODE_BASE) / LINE_RANGE, 0), []))
    else if opcode == FIXED_ADVANCE_PC then
      if |rest| < 2 then None else Some(Effect(rest[2..], Advanced(r, LittleEndian(rest[..2]), 0), []))
    else if opcode == SET_PROLOGUE_END then Some(Effect(rest, r.(prologueEnd := true), []))
    else if opcode == SET_EPILOGUE_BEGIN then Some(Effect(rest, r.(epilogueBegin := true), []))
    else StepOperand(opcode, rest, r)
  }

  /** The rows that a program appends, or None if it is not well formed. */
  function Run(s: seq<byte>, r: Registers): Option<seq<Registers>>
    decreases |s|
  {
    if s == [] then Some([]) else
      match Step(s, r)
      case None => None
      case Some(e) => Prepend(e.rows, Run(e.rest, e.regs))
  }

  function Prepend(rows: seq<Registers>, more: Option<seq<Registers>>): Option<seq<Registers>> {
    match more
    case None => None
    case Some(m) => Some(rows + m)
  }

  // ---------------------------------------------------------------- what a piece of program means

  /** Whatever comes after it, the piece of program appends the rows and turns r into r'. */
  ghost predicate Does(program: seq<byte>, r: Registers, rows: seq<Registers>, r': Registers) {
    forall rest :: Run(program + rest, r) == Prepend(rows, Run(rest, r'))
  }

  lemma DoesNothing(r: Registers)
    ensures Does([], r, [], r)
  {
    forall rest
      ensures Run([] + rest, r) == Prepend([], Run(rest, r))
    {
      assert [] + rest == rest;
      match Run(rest, r) {
        case None =>
        case Some(rows) => assert [] + rows == rows;
      }
    }
  }

  lemma DoesThen(p: seq<byte>, r: Registers, rows: seq<Registers>, r': Registers,
                 p': seq<byte>, rows': seq<Registers>, r'': Registers)
    requires Does(p, r, rows, r') && Does(p', r', rows', r'')
    ensures Does(p + p', r, rows + rows', r'')
  {
    hide Run;
    forall rest
      ensures Run((p + p') + rest, r) == Prepend(rows + rows', Run(rest, r''))
    {
      assert (p + p') + rest == p + (p' + rest);
      match Run(rest, r'') {
        case None =>
        case Some(more) => assert rows + (rows' + more) == (rows + rows') + more;
      }
    }
  }

  /** A piece of program that is one instruction does what that instruction does. */
  lemma DoesStep(p: seq<byte>, r: Registers, rows: seq<Registers>, r': Registers)
    requires p != [] && forall rest :: Step(p + rest, r) == Some(Effect(rest, r', rows))
    ensures Does(p, r, rows, r')
  {
    forall rest
      ensures Run(p + rest, r) == Prepend(rows, Run(rest, r'))
    {
      assert Step(p + rest, r) == Some(Effect(rest, r', rows));
    }
  }

  /** A whole program that does something definite yields exactly those rows. */
  lemma DoesAlone(p: seq<byte>, r: Registers, rows: seq<Registers>, r': Registers)
    requires Does(p, r, rows, r')
    ensures Run(p, r) == Some(rows)
  {
    assert p + [] == p;
    assert rows + [] == rows;
  }
}
