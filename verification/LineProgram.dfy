/** Compiling a list of source locations to a line number program: size_inc_line_addr,
    emit_inc_line_addr, process_entries and the relaxable frags of cctools/as/dwarf2dbg.c. */
module LineProgram {
  import opened Leb128
  import opened LineMachine
  import opened Wrappers

  const INT_MAX := 0x7fff_ffff

  /** A C int. */
  type int32 = n: int | -0x8000_0000 <= n < 0x8000_0000

  /** A C unsigned int. */
  type uint32 = n: int | 0 <= n < 0x1_0000_0000

  /** An addressT that emit_inc_line_addr accepts: not negative when read as signed. */
  type Delta = n: int | 0 <= n < 0x8000_0000_0000_0000

  // The source's own numbers; the machine goes by those of the standard.
  const DWARF2_LINE_OPCODE_BASE := 13
  const DWARF2_LINE_BASE := -5
  const DWARF2_LINE_RANGE := 14

  const DW_LNS_extended_op: byte := 0
  const DW_LNS_copy: byte := 1
  const DW_LNS_advance_pc: byte := 2
  const DW_LNS_advance_line: byte := 3
  const DW_LNS_set_file: byte := 4
  const DW_LNS_set_column: byte := 5
  const DW_LNS_negate_stmt: byte := 6
  const DW_LNS_set_basic_block: byte := 7
  const DW_LNS_const_add_pc: byte := 8
  const DW_LNS_set_prologue_end: byte := 10
  const DW_LNS_set_epilogue_begin: byte := 11
  const DW_LNS_set_isa: byte := 12

  const DW_LNE_end_sequence: byte := 1
  const DW_LNE_set_address: byte := 2

  const SPECIAL_MAX := (255 - DWARF2_LINE_OPCODE_BASE) / DWARF2_LINE_RANGE    // MAX_SPECIAL_ADDR_DELTA

  // ---------------------------------------------------------------- one row

  /** The line delta with the bias of special opcodes, as the unsigned arithmetic makes it. */
  function Biased(lineDelta: int32): uint32 {
    (lineDelta - DWARF2_LINE_BASE) % 0x1_0000_0000
  }

  predicate InSpecialRange(lineDelta: int32) {
    Biased(lineDelta) < DWARF2_LINE_RANGE
  }

  /** The special opcode for a line delta in range and no address delta. */
  function LineOpcode(lineDelta: int32): (opcode: int)
    requires InSpecialRange(lineDelta)
    ensures DWARF2_LINE_OPCODE_BASE <= opcode < DWARF2_LINE_OPCODE_BASE + DWARF2_LINE_RANGE
  {
    Biased(lineDelta) + DWARF2_LINE_OPCODE_BASE
  }

  /** The bytes that end a sequence after a last advance of the address. */
  function EndBytes(addrDelta: nat): seq<byte> {
    (if addrDelta == SPECIAL_MAX then [DW_LNS_const_add_pc] else [DW_LNS_advance_pc] + Uleb(addrDelta))
    + [DW_LNS_extended_op, 1, DW_LNE_end_sequence]
  }

  /** The bytes that advance the address, and the line as far as a special opcode can, and append a row. */
  function AdvanceBytes(lineDelta: int32, addrDelta: nat, needCopy: bool): (s: seq<byte>)
    requires InSpecialRange(lineDelta) && (needCopy ==> lineDelta == 0)
    ensures |s| >= 1
  {
    var opcode := LineOpcode(lineDelta);
    if lineDelta == 0 && addrDelta == 0 then [DW_LNS_copy]
    else if opcode + addrDelta * DWARF2_LINE_RANGE <= 255 then [(opcode + addrDelta * DWARF2_LINE_RANGE) as byte]
    else if opcode + (addrDelta - SPECIAL_MAX) * DWARF2_LINE_RANGE <= 255 then
      [DW_LNS_const_add_pc, (opcode + (addrDelta - SPECIAL_MAX) * DWARF2_LINE_RANGE) as byte]
    else [DW_LNS_advance_pc] + Uleb(addrDelta) + [if needCopy then DW_LNS_copy else opcode as byte]
  }

  /** The bytes that append a row after advancing line and address. */
  function RowBytes(lineDelta: int32, addrDelta: nat): (s: seq<byte>) {
    if InSpecialRange(lineDelta) then AdvanceBytes(lineDelta, addrDelta, false)
    else [DW_LNS_advance_line] + Sleb(lineDelta) + AdvanceBytes(0, addrDelta, true)
  }

  /** What emit_inc_line_addr writes. */
  function IncLineAddr(lineDelta: int32, addrDelta: nat): seq<byte> {
    if lineDelta == INT_MAX then EndBytes(addrDelta) else RowBytes(lineDelta, addrDelta)
  }

  /** size_inc_line_addr. The subtraction is only reached when it cannot go below zero. */
  method SizeIncLineAddr(lineDelta: int32, addrDelta: nat) returns (len: nat)
    ensures len == |IncLineAddr(lineDelta, addrDelta)|
  {
    len := 0;
    if lineDelta == INT_MAX {
      if addrDelta == SPECIAL_MAX {
        len := 1;
      } else {
        len := SizeofUleb(addrDelta);
        len := 1 + len;
      }
      return len + 3;
    }
    var tmp := Biased(lineDelta);
    if tmp >= DWARF2_LINE_RANGE {
      len := SizeofSleb(lineDelta);
      len := 1 + len;
      tmp := 0 - DWARF2_LINE_BASE;
    }
    tmp := tmp + DWARF2_LINE_OPCODE_BASE;
    if addrDelta < 256 + SPECIAL_MAX {
      var opcode := tmp + addrDelta * DWARF2_LINE_RANGE;
      if opcode <= 255 {
        return len + 1;
      }
      assert addrDelta >= SPECIAL_MAX;
      opcode := tmp + (addrDelta - SPECIAL_MAX) * DWARF2_LINE_RANGE;
      if opcode <= 255 {
        return len + 2;
      }
    }
    var n := SizeofUleb(addrDelta);
    len := len + 1 + n + 1;
  }

  /** A place in a buffer after which nothing has been written yet, and before which there is text. */
  ghost predicate Written(p: array<byte>, before: seq<byte>, start: nat, text: seq<byte>, at: nat)
    reads p
  {
    && |before| == p.Length && at == start + |text| <= p.Length
    && p[start..at] == text
    && forall k :: 0 <= k < p.Length && !(start <= k < at) ==> p[k] == before[k]
  }

  method Put(p: array<byte>, at: nat, b: byte, ghost before: seq<byte>, ghost start: nat, ghost text: seq<byte>)
    returns (next: nat)
    requires Written(p, before, start, text, at) && at < p.Length
    modifies p
    ensures next == at + 1 && Written(p, before, start, text + [b], next)
  {
    p[at] := b;
    next := at + 1;
  }

  method PutUleb(p: array<byte>, at: nat, value: nat, ghost before: seq<byte>, ghost start: nat, ghost text: seq<byte>)
    returns (next: nat)
    requires Written(p, before, start, text, at) && at + |Uleb(value)| <= p.Length
    modifies p
    ensures next == at + |Uleb(value)| && Written(p, before, start, text + Uleb(value), next)
  {
    hide Uleb;
    next := OutputUleb(p, at, value);
    assert p[start..next] == p[start..at] + p[at..next];
  }

  method PutSleb(p: array<byte>, at: nat, value: int, ghost before: seq<byte>, ghost start: nat, ghost text: seq<byte>)
    returns (next: nat)
    requires Written(p, before, start, text, at) && at + |Sleb(value)| <= p.Length
    modifies p
    ensures next == at + |Sleb(value)| && Written(p, before, start, text + Sleb(value), next)
  {
    hide Sleb;
    next := OutputSleb(p, at, value);
    assert p[start..next] == p[start..at] + p[at..next];
  }

  method EmitEnd(p: array<byte>, start: nat, addrDelta: nat) returns (at: nat)
    requires start + |EndBytes(addrDelta)| <= p.Length
    modifies p
    ensures Written(p, old(p[..]), start, EndBytes(addrDelta), at)
  {
    ghost var before := p[..];
    if addrDelta == SPECIAL_MAX {
      at := Put(p, start, DW_LNS_const_add_pc, before, start, []);
    } else {
      at := Put(p, start, DW_LNS_advance_pc, before, start, []);
      at := PutUleb(p, at, addrDelta, before, start, [DW_LNS_advance_pc]);
    }
    ghost var text := if addrDelta == SPECIAL_MAX then [DW_LNS_const_add_pc] else [DW_LNS_advance_pc] + Uleb(addrDelta);
    assert [] + [DW_LNS_advance_pc] == [DW_LNS_advance_pc] && [] + [DW_LNS_const_add_pc] == [DW_LNS_const_add_pc];
    at := Put(p, at, DW_LNS_extended_op, before, start, text);
    at := Put(p, at, 1, before, start, text + [DW_LNS_extended_op]);
    at := Put(p, at, DW_LNE_end_sequence, before, start, text + [DW_LNS_extended_op] + [1]);
    assert text + [DW_LNS_extended_op] + [1] + [DW_LNE_end_sequence] == text + [DW_LNS_extended_op, 1, DW_LNE_end_sequence];
  }

  lemma NothingWritten(p: array<byte>, start: nat)
    requires start <= p.Length
    ensures Written(p, p[..], start, [], start)
  {
  }

  lemma RowParts(lineDelta: int32, addrDelta: nat)
    ensures InSpecialRange(lineDelta) <==> Biased(lineDelta) < DWARF2_LINE_RANGE
    ensures InSpecialRange(0) && Biased(0) == 0 - DWARF2_LINE_BASE
    ensures if InSpecialRange(lineDelta) then RowBytes(lineDelta, addrDelta) == AdvanceBytes(lineDelta, addrDelta, false)
            else RowBytes(lineDelta, addrDelta) == [DW_LNS_advance_line] + Sleb(lineDelta) + AdvanceBytes(0, addrDelta, true)
  {
    hide Sleb, AdvanceBytes;
  }

  method EmitRow(p: array<byte>, start: nat, lineDelta: int32, addrDelta: nat) returns (at: nat)
    requires start + |RowBytes(lineDelta, addrDelta)| <= p.Length
    modifies p
    ensures Written(p, old(p[..]), start, RowBytes(lineDelta, addrDelta), at)
  {
    hide Sleb, AdvanceBytes, Written, RowBytes, InSpecialRange;
    ghost var before := p[..];
    ghost var text: seq<byte> := [];
    at := start;
    RowParts(lineDelta, addrDelta);
    assert Written(p, before, start, text, at) by { NothingWritten(p, start); }
    var delta, needCopy: bool := lineDelta, false;
    var tmp := Biased(lineDelta);
    if tmp >= DWARF2_LINE_RANGE {
      at := Put(p, at, DW_LNS_advance_line, before, start, text);
      at := PutSleb(p, at, lineDelta, before, start, text + [DW_LNS_advance_line]);
      text := [DW_LNS_advance_line] + Sleb(lineDelta);
      assert [] + [DW_LNS_advance_line] + Sleb(lineDelta) == text && |text| == 1 + |Sleb(lineDelta)|;
      delta, tmp, needCopy := 0, 0 - DWARF2_LINE_BASE, true;
    } else {
      assert text + AdvanceBytes(delta, addrDelta, needCopy) == RowBytes(lineDelta, addrDelta);
    }
    at := EmitAdvance(p, start, delta, addrDelta, needCopy, tmp, before, text, at);
  }

  method EmitAdvance(p: array<byte>, ghost start: nat, lineDelta: int32, addrDelta: nat, needCopy: bool, biased: int,
                     ghost before: seq<byte>, ghost text: seq<byte>, from: nat)
    returns (at: nat)
    requires InSpecialRange(lineDelta) && (needCopy ==> lineDelta == 0) && biased == Biased(lineDelta)
    requires Written(p, before, start, text, from)
    requires from + |AdvanceBytes(lineDelta, addrDelta, needCopy)| <= p.Length
    modifies p
    ensures Written(p, before, start, text + AdvanceBytes(lineDelta, addrDelta, needCopy), at)
  {
    hide Uleb;
    at := from;
    var tmp := biased;
    if lineDelta == 0 && addrDelta == 0 {
      at := Put(p, at, DW_LNS_copy, before, start, text);
      return;
    }
    tmp := tmp + DWARF2_LINE_OPCODE_BASE;
    if addrDelta < 256 + SPECIAL_MAX {
      var opcode := tmp + addrDelta * DWARF2_LINE_RANGE;
      if opcode <= 255 {
        at := Put(p, at, opcode as byte, before, start, text);
        return;
      }
      assert addrDelta >= SPECIAL_MAX;
      opcode := tmp + (addrDelta - SPECIAL_MAX) * DWARF2_LINE_RANGE;
      if opcode <= 255 {
        at := Put(p, at, DW_LNS_const_add_pc, before, start, text);
        at := Put(p, at, opcode as byte, before, start, text + [DW_LNS_const_add_pc]);
        assert text + [DW_LNS_const_add_pc] + [opcode as byte] == text + [DW_LNS_const_add_pc, opcode as byte];
        return;
      }
    }
    ghost var last: byte := if needCopy then DW_LNS_copy else tmp as byte;
    assert text + [DW_LNS_advance_pc] + Uleb(addrDelta) + [last] == text + ([DW_LNS_advance_pc] + Uleb(addrDelta) + [last]);
    at := Put(p, at, DW_LNS_advance_pc, before, start, text);
    at := PutUleb(p, at, addrDelta, before, start, text + [DW_LNS_advance_pc]);
    at := Put(p, at, if needCopy then DW_LNS_copy else tmp as byte, before, start, text + [DW_LNS_advance_pc] + Uleb(addrDelta));
  }

  /** emit_inc_line_addr, writing into room for len bytes. The fatal error at its end, for having
      written another number of bytes than announced, cannot happen. */
  method EmitIncLineAddr(lineDelta: int32, addrDelta: Delta, p: array<byte>, start: nat, len: nat) returns (fatal: bool)
    requires len == |IncLineAddr(lineDelta, addrDelta)| && start + len <= p.Length
    modifies p
    ensures !fatal
    ensures p[start..start + len] == IncLineAddr(lineDelta, addrDelta)
    ensures forall k :: 0 <= k < p.Length && !(start <= k < start + len) ==> p[k] == old(p[k])
  {
    hide RowBytes, EndBytes;
    var end := start + len;
    var at;
    if lineDelta == INT_MAX {
      at := EmitEnd(p, start, addrDelta);
    } else {
      at := EmitRow(p, start, lineDelta, addrDelta);
    }
    fatal := at != end;
  }

  // ---------------------------------------------------------------- what the bytes mean

  lemma StepUleb(opcode: byte, n: nat, rest: seq<byte>)
    ensures ([opcode] + Uleb(n) + rest)[0] == opcode
    ensures ReadUleb(([opcode] + Uleb(n) + rest)[1..]) == Some(Decoded(n, rest))
  {
    hide Uleb, ReadUleb;
    assert ([opcode] + Uleb(n) + rest)[1..] == Uleb(n) + rest;
    UlebRoundTrip(n, rest);
  }

  lemma DoesAdvancePc(n: nat, r: Registers)
    ensures Does([DW_LNS_advance_pc] + Uleb(n), r, [], Advanced(r, n, 0))
  {
    forall rest
      ensures Step([DW_LNS_advance_pc] + Uleb(n) + rest, r) == Some(Effect(rest, Advanced(r, n, 0), []))
    {
      StepUleb(DW_LNS_advance_pc, n, rest);
    }
    DoesStep([DW_LNS_advance_pc] + Uleb(n), r, [], Advanced(r, n, 0));
  }

  lemma DoesConstAddPc(r: Registers)
    ensures Does([DW_LNS_const_add_pc], r, [], Advanced(r, SPECIAL_MAX, 0))
  {
    forall rest
      ensures Step([DW_LNS_const_add_pc] + rest, r) == Some(Effect(rest, Advanced(r, SPECIAL_MAX, 0), []))
    {
      assert ([DW_LNS_const_add_pc] + rest)[1..] == rest;
    }
    DoesStep([DW_LNS_const_add_pc], r, [], Advanced(r, SPECIAL_MAX, 0));
  }

  lemma DoesAdvanceLine(n: int, r: Registers)
    ensures Does([DW_LNS_advance_line] + Sleb(n), r, [], Advanced(r, 0, n))
  {
    forall rest
      ensures Step([DW_LNS_advance_line] + Sleb(n) + rest, r) == Some(Effect(rest, Advanced(r, 0, n), []))
    {
      assert ([DW_LNS_advance_line] + Sleb(n) + rest)[1..] == Sleb(n) + rest;
      SlebRoundTrip(n, rest);
    }
    DoesStep([DW_LNS_advance_line] + Sleb(n), r, [], Advanced(r, 0, n));
  }

  lemma DoesCopy(r: Registers)
    ensures Does([DW_LNS_copy], r, [r], Cleared(r))
  {
    forall rest
      ensures Step([DW_LNS_copy] + rest, r) == Some(Effect(rest, Cleared(r), [r]))
    {
      assert ([DW_LNS_copy] + rest)[1..] == rest;
    }
    DoesStep([DW_LNS_copy], r, [r], Cleared(r));
  }

  /** A special opcode advances line and address and appends the row. */
  lemma DoesSpecial(lineDelta: int32, addrDelta: nat, r: Registers)
    requires InSpecialRange(lineDelta) && LineOpcode(lineDelta) + addrDelta * DWARF2_LINE_RANGE <= 255
    ensures var row := Advanced(r, addrDelta, lineDelta);
      Does([(LineOpcode(lineDelta) + addrDelta * DWARF2_LINE_RANGE) as byte], r, [row], Cleared(row))
  {
    var opcode := LineOpcode(lineDelta) + addrDelta * DWARF2_LINE_RANGE;
    var row := Advanced(r, addrDelta, lineDelta);
    assert DWARF2_LINE_BASE + (opcode - DWARF2_LINE_OPCODE_BASE) % DWARF2_LINE_RANGE == lineDelta && (opcode - DWARF2_LINE_OPCODE_BASE) / DWARF2_LINE_RANGE == addrDelta;
    forall rest
      ensures Step([opcode as byte] + rest, r) == Some(Effect(rest, Cleared(row), [row]))
    {
      assert ([opcode as byte] + rest)[1..] == rest;
    }
    DoesStep([opcode as byte], r, [row], Cleared(row));
  }

  /** With the line register in its range, no advance is no change. */
  ghost predicate InRange(r: Registers) {
    r.line < WORD
  }

  lemma AdvancedNowhere(r: Registers)
    requires InRange(r)
    ensures Advanced(r, 0, 0) == r
  {
  }

  lemma DoesByConstAddPc(lineDelta: int32, addrDelta: nat, r: Registers)
    requires InSpecialRange(lineDelta) && InRange(r) && addrDelta >= SPECIAL_MAX
    requires LineOpcode(lineDelta) + (addrDelta - SPECIAL_MAX) * DWARF2_LINE_RANGE <= 255
    ensures var row := Advanced(r, addrDelta, lineDelta);
      Does([DW_LNS_const_add_pc, (LineOpcode(lineDelta) + (addrDelta - SPECIAL_MAX) * DWARF2_LINE_RANGE) as byte], r, [row], Cleared(row))
  {
    hide Does, LineOpcode;
    var row := Advanced(r, addrDelta, lineDelta);
    var mid := Advanced(r, SPECIAL_MAX, 0);
    var special := (LineOpcode(lineDelta) + (addrDelta - SPECIAL_MAX) * DWARF2_LINE_RANGE) as byte;
    DoesConstAddPc(r);
    DoesSpecial(lineDelta, addrDelta - SPECIAL_MAX, mid);
    DoesThen([DW_LNS_const_add_pc], r, [], mid, [special], [row], Cleared(row));
    assert [DW_LNS_const_add_pc] + [special] == [DW_LNS_const_add_pc, special] && [] + [row] == [row];
  }

  lemma DoesByAdvancePc(lineDelta: int32, addrDelta: nat, needCopy: bool, r: Registers)
    requires InSpecialRange(lineDelta) && (needCopy ==> lineDelta == 0) && InRange(r)
    ensures var row := Advanced(r, addrDelta, lineDelta);
      Does([DW_LNS_advance_pc] + Uleb(addrDelta) + [if needCopy then DW_LNS_copy else LineOpcode(lineDelta) as byte], r, [row], Cleared(row))
  {
    hide Does, LineOpcode, Uleb;
    var row := Advanced(r, addrDelta, lineDelta);
    var mid := Advanced(r, addrDelta, 0);
    DoesAdvancePc(addrDelta, r);
    if needCopy {
      DoesCopy(mid);
      DoesThen([DW_LNS_advance_pc] + Uleb(addrDelta), r, [], mid, [DW_LNS_copy], [row], Cleared(row));
    } else {
      DoesSpecial(lineDelta, 0, mid);
      DoesThen([DW_LNS_advance_pc] + Uleb(addrDelta), r, [], mid, [LineOpcode(lineDelta) as byte], [row], Cleared(row));
    }
    assert [] + [row] == [row];
  }

  lemma DoesAdvance(lineDelta: int32, addrDelta: nat, needCopy: bool, r: Registers)
    requires InSpecialRange(lineDelta) && (needCopy ==> lineDelta == 0) && InRange(r)
    ensures var row := Advanced(r, addrDelta, lineDelta);
      Does(AdvanceBytes(lineDelta, addrDelta, needCopy), r, [row], Cleared(row))
  {
    hide Does, Uleb, Advanced;
    var row := Advanced(r, addrDelta, lineDelta);
    var opcode := LineOpcode(lineDelta);
    if lineDelta == 0 && addrDelta == 0 {
      DoesCopy(r);
      AdvancedNowhere(r);
    } else if opcode + addrDelta * DWARF2_LINE_RANGE <= 255 {
      DoesSpecial(lineDelta, addrDelta, r);
    } else if opcode + (addrDelta - SPECIAL_MAX) * DWARF2_LINE_RANGE <= 255 {
      DoesByConstAddPc(lineDelta, addrDelta, r);
    } else {
      DoesByAdvancePc(lineDelta, addrDelta, needCopy, r);
    }
  }

  /** The bytes of a row append exactly one row: the registers with both deltas added. */
  lemma DoesRow(lineDelta: int32, addrDelta: nat, r: Registers)
    requires InRange(r)
    ensures var row := Advanced(r, addrDelta, lineDelta);
      Does(RowBytes(lineDelta, addrDelta), r, [row], Cleared(row))
  {
    hide Does;
    if InSpecialRange(lineDelta) {
      DoesAdvance(lineDelta, addrDelta, false, r);
    } else {
      var mid := Advanced(r, 0, lineDelta);
      var row := Advanced(r, addrDelta, lineDelta);
      DoesAdvanceLine(lineDelta, r);
      DoesAdvance(0, addrDelta, true, mid);
      DoesThen([DW_LNS_advance_line] + Sleb(lineDelta), r, [], mid, AdvanceBytes(0, addrDelta, true), [row], Cleared(row));
      assert [] + [row] == [row];
    }
  }

  lemma DoesEndSequence(r: Registers)
    ensures Does([DW_LNS_extended_op, 1, DW_LNE_end_sequence], r, [r.(endSequence := true)], INITIAL)
  {
    var p := [DW_LNS_extended_op, 1, DW_LNE_end_sequence];
    forall rest
      ensures Step(p + rest, r) == Some(Effect(rest, INITIAL, [r.(endSequence := true)]))
    {
      assert (p + rest)[1..] == [1, DW_LNE_end_sequence] + rest;
      assert ([1, DW_LNE_end_sequence] + rest)[1..] == [DW_LNE_end_sequence] + rest;
      assert ([DW_LNE_end_sequence] + rest)[1..] == rest;
    }
    DoesStep(p, r, [r.(endSequence := true)], INITIAL);
  }

  /** The end bytes append the end-of-sequence row and put the machine back where it started. */
  lemma DoesEnd(addrDelta: nat, r: Registers)
    requires InRange(r)
    ensures Does(EndBytes(addrDelta), r, [Advanced(r, addrDelta, 0).(endSequence := true)], INITIAL)
  {
    hide Does;
    var mid := Advanced(r, addrDelta, 0);
    var row := mid.(endSequence := true);
    var advance := if addrDelta == SPECIAL_MAX then [DW_LNS_const_add_pc] else [DW_LNS_advance_pc] + Uleb(addrDelta);
    if addrDelta == SPECIAL_MAX {
      DoesConstAddPc(r);
    } else {
      DoesAdvancePc(addrDelta, r);
    }
    DoesEndSequence(mid);
    DoesThen(advance, r, [], mid, [DW_LNS_extended_op, 1, DW_LNE_end_sequence], [row], INITIAL);
    assert [] + [row] == [row];
  }
}
