/** The line number program of a section: process_entries and the relaxable frags of
    cctools/as/dwarf2dbg.c, and what the compiled program means. */
module LineTable {
  import opened Leb128
  import opened LineMachine
  import opened LineProgram
  import opened Wrappers

  /** A source location (struct dwarf2_line_info); the last four are the bits of its flags. */
  datatype Loc = Loc(file: uint32, line: uint32, column: uint32, isa: uint32,
                     isStmt: bool, basicBlock: bool, prologueEnd: bool, epilogueBegin: bool)

  /** A label: a frag of the section, and an offset from the start of that frag. */
  datatype Label = Label(frag: nat, offset: nat)

  datatype Entry = Entry(at: Label, loc: Loc)

  /** What goes into the line section: bytes, an address to be fixed up, or a frag whose bytes wait
      for the address difference between two labels. */
  datatype Chunk =
    | Bytes(text: seq<byte>)
    | FixedUp(at: Label)
    | Relaxable(lineDelta: int32, to: Label, from: Label, maxChars: nat)

  /** The local variables of process_entries that follow the machine's registers. */
  datatype Track = Track(file: uint32, line: uint32, column: uint32, isa: uint32, isStmt: bool)

  const START := Track(1, 1, 0, 0, true)

  const ADDRESS_MAX: nat := 0xffff_ffff_ffff_ffff   // minus one, as an addressT

  function ToInt32(n: int): int32 {
    var m := n % 0x1_0000_0000;
    if m > INT_MAX then m - 0x1_0000_0000 else m
  }

  function LineDelta(t: Track, loc: Loc): int32 {
    ToInt32(loc.line - t.line)
  }

  function Follow(loc: Loc): Track {
    Track(loc.file, loc.line, loc.column, loc.isa, loc.isStmt)
  }

  function Operand(changed: bool, opcode: byte, n: uint32): seq<byte> {
    if changed then [opcode] + Uleb(n) else []
  }

  function Flag(wanted: bool, opcode: byte): seq<byte> {
    if wanted then [opcode] else []
  }

  /** The instructions in front of a row: whatever differs from the row before, and the marks. */
  function Settings(t: Track, loc: Loc): seq<byte> {
    Operand(t.file != loc.file, DW_LNS_set_file, loc.file)
    + Operand(t.column != loc.column, DW_LNS_set_column, loc.column)
    + Operand(t.isa != loc.isa, DW_LNS_set_isa, loc.isa)
    + Flag(loc.isStmt != t.isStmt, DW_LNS_negate_stmt)
    + Flag(loc.basicBlock, DW_LNS_set_basic_block)
    + Flag(loc.prologueEnd, DW_LNS_set_prologue_end)
    + Flag(loc.epilogueBegin, DW_LNS_set_epilogue_begin)
  }

  function Advance(lineDelta: int32, from: Label, to: Label): Chunk
    requires from.frag == to.frag ==> from.offset <= to.offset
  {
    if from.frag == to.frag then Bytes(IncLineAddr(lineDelta, to.offset - from.offset))
    else Relaxable(lineDelta, to, from, |IncLineAddr(lineDelta, ADDRESS_MAX)|)
  }

  function SetAddress(addressSize: nat, at: Label): seq<Chunk> {
    [Bytes([DW_LNS_extended_op] + Uleb(addressSize + 1) + [DW_LNE_set_address]), FixedUp(at)]
  }

  /** The chunks of one entry. */
  function EntryChunks(addressSize: nat, t: Track, last: Option<Label>, e: Entry): seq<Chunk>
    requires last.Some? ==> InOrder(last.value, e.at)
  {
    [Bytes(Settings(t, e.loc))] + Move(addressSize, LineDelta(t, e.loc), last, e.at)
  }

  /** The chunks that take the address and the line to the entry's: absolutely at first, relatively after that. */
  function Move(addressSize: nat, lineDelta: int32, last: Option<Label>, to: Label): seq<Chunk>
    requires last.Some? ==> InOrder(last.value, to)
  {
    match last
    case None => SetAddress(addressSize, to) + [Bytes(IncLineAddr(lineDelta, 0))]
    case Some(from) => [Advance(lineDelta, from, to)]
  }

  /** Labels in one frag come in ascending order; emit_inc_line_addr asserts it. */
  predicate InOrder(from: Label, to: Label) {
    from.frag == to.frag ==> from.offset <= to.offset < from.offset + 0x8000_0000_0000_0000
  }

  predicate AllInOrder(last: Option<Label>, entries: seq<Entry>, end: Label)
    decreases entries
  {
    if entries == [] then last.Some? ==> InOrder(last.value, end)
    else (last.Some? ==> InOrder(last.value, entries[0].at)) && AllInOrder(Some(entries[0].at), entries[1..], end)
  }

  /** The chunks of the entries after the label last, and of the end of the section. */
  function Compiled(addressSize: nat, t: Track, last: Option<Label>, entries: seq<Entry>, end: Label): seq<Chunk>
    requires AllInOrder(last, entries, end) && (entries == [] ==> last.Some?)
    decreases entries
  {
    if entries == [] then
      [Advance(INT_MAX, last.value, end)]
    else
      EntryChunks(addressSize, t, last, entries[0])
      + Compiled(addressSize, Follow(entries[0].loc), Some(entries[0].at), entries[1..], end)
  }

  // ---------------------------------------------------------------- process_entries

  /** out_inc_line_addr, whose buffer is then part of the section. */
  method OutIncLineAddr(lineDelta: int32, addrDelta: Delta) returns (text: seq<byte>)
    ensures text == IncLineAddr(lineDelta, addrDelta)
  {
    var len := SizeIncLineAddr(lineDelta, addrDelta);
    var p := new byte[len];
    var fatal := EmitIncLineAddr(lineDelta, addrDelta, p, 0, len);
    text := p[..];
  }

  method OutAdvance(lineDelta: int32, from: Label, to: Label, lastOffset: int, offset: int) returns (chunk: Chunk)
    requires InOrder(from, to) && (from.frag == to.frag ==> offset - lastOffset == to.offset - from.offset)
    ensures chunk == Advance(lineDelta, from, to)
  {
    if to.frag == from.frag {
      var text := OutIncLineAddr(lineDelta, offset - lastOffset);
      chunk := Bytes(text);
    } else {
      var maxChars := SizeIncLineAddr(lineDelta, ADDRESS_MAX);
      chunk := Relaxable(lineDelta, to, from, maxChars);
    }
  }

  /** The first half of the loop body: bring the registers other than address and line up to date. */
  method OutSettings(file: uint32, column: uint32, isa: uint32, isStmt: bool, loc: Loc, ghost line: uint32)
    returns (text: seq<byte>)
    ensures text == Settings(Track(file, line, column, isa, isStmt), loc)
  {
    hide Operand, Flag;
    text := OutOperand([], file != loc.file, DW_LNS_set_file, loc.file);
    assert text == Operand(file != loc.file, DW_LNS_set_file, loc.file);
    text := OutOperand(text, column != loc.column, DW_LNS_set_column, loc.column);
    text := OutOperand(text, isa != loc.isa, DW_LNS_set_isa, loc.isa);
    text := OutFlag(text, loc.isStmt != isStmt, DW_LNS_negate_stmt);
    text := OutFlag(text, loc.basicBlock, DW_LNS_set_basic_block);
    text := OutFlag(text, loc.prologueEnd, DW_LNS_set_prologue_end);
    text := OutFlag(text, loc.epilogueBegin, DW_LNS_set_epilogue_begin);
  }

  method OutOperand(text: seq<byte>, changed: bool, opcode: byte, n: uint32) returns (text': seq<byte>)
    ensures text' == text + Operand(changed, opcode, n)
  {
    text' := text;
    if changed {
      text' := text + ([opcode] + Uleb(n));
    }
  }

  method OutFlag(text: seq<byte>, wanted: bool, opcode: byte) returns (text': seq<byte>)
    ensures text' == text + Flag(wanted, opcode)
  {
    text' := text;
    if wanted {
      text' := text + [opcode];
    }
  }

  method OutMove(addressSize: nat, lineDelta: int32, last: Option<Label>, to: Label, lastOffset: int, offset: int)
    returns (chunks: seq<Chunk>)
    requires last.Some? ==> InOrder(last.value, to)
    requires last.Some? && last.value.frag == to.frag ==> offset - lastOffset == to.offset - last.value.offset
    ensures chunks == Move(addressSize, lineDelta, last, to)
  {
    if last.None? {
      var row := OutIncLineAddr(lineDelta, 0);
      chunks := [Bytes([DW_LNS_extended_op] + Uleb(addressSize + 1) + [DW_LNE_set_address]), FixedUp(to)] + [Bytes(row)];
    } else {
      var chunk := OutAdvance(lineDelta, last.value, to, lastOffset, offset);
      chunks := [chunk];
    }
  }

  /** process_entries. base holds, for each frag, what fr_address + fr_offset come to at this time;
      the last frag of the section has just been made, so there it is zero. */
  method ProcessEntries(addressSize: nat, entries: seq<Entry>, base: seq<int>, end: Label) returns (out: seq<Chunk>)
    requires entries != [] && AllInOrder(None, entries, end)
    requires end.frag < |base| && base[end.frag] == 0 && forall e :: e in entries ==> e.at.frag < |base|
    ensures out == Compiled(addressSize, START, None, entries, end)
  {
    hide IncLineAddr, Settings, Uleb, Move, ToInt32, Advance;
    var file, line, column, isa, isStmt: bool := START.file, START.line, START.column, START.isa, START.isStmt;
    var last: Option<Label> := None;
    var lastOffset := 0;
    out := [];
    var i := 0;
    while i < |entries|
      invariant 0 <= i <= |entries| && AllInOrder(last, entries[i..], end)
      invariant last.None? <==> i == 0
      invariant last.Some? ==> last.value.frag < |base| && lastOffset == last.value.offset + base[last.value.frag]
      invariant Compiled(addressSize, START, None, entries, end)
        == out + Compiled(addressSize, Track(file, line, column, isa, isStmt), last, entries[i..], end)
    {
      var e := entries[i];
      assert entries[i..][0] == e && entries[i..][1..] == entries[i+1..];
      ghost var t := Track(file, line, column, isa, isStmt);
      ghost var sofar := out;
      var text := OutSettings(file, column, isa, isStmt, e.loc, line);
      file, column, isa, isStmt := e.loc.file, e.loc.column, e.loc.isa, e.loc.isStmt;
      var lineDelta := ToInt32(e.loc.line - line);
      var offset := e.at.offset + base[e.at.frag];
      var move := OutMove(addressSize, lineDelta, last, e.at, lastOffset, offset);
      out := out + [Bytes(text)] + move;
      assert out == sofar + EntryChunks(addressSize, t, last, e);
      ghost var rest := Compiled(addressSize, Follow(e.loc), Some(e.at), entries[i+1..], end);
      assert sofar + (EntryChunks(addressSize, t, last, e) + rest) == out + rest;
      line := e.loc.line;
      last := Some(e.at);
      lastOffset := offset;
      i := i + 1;
    }
    assert entries[i..] == [];
    var chunk := OutAdvance(INT_MAX, last.value, end, lastOffset, end.offset);
    out := out + [chunk];
  }

  // ---------------------------------------------------------------- resolving

  function LittleEndianBytes(n: nat, size: nat): (s: seq<byte>)
    ensures |s| == size
  {
    if size == 0 then [] else [(n % 256) as byte] + LittleEndianBytes(n / 256, size - 1)
  }

  function Bytes256(size: nat): nat {
    if size == 0 then 1 else 256 * Bytes256(size - 1)
  }

  lemma {:induction false} LittleEndianRoundTrip(n: nat, size: nat)
    requires n < Bytes256(size)
    ensures LittleEndian(LittleEndianBytes(n, size)) == n
  {
    if size > 0 {
      assert LittleEndianBytes(n, size)[1..] == LittleEndianBytes(n / 256, size - 1);
      LittleEndianRoundTrip(n / 256, size - 1);
    }
  }

  /** The address of a label, given the final addresses of the frags. */
  function AddressOf(frags: seq<nat>, at: Label): nat {
    if at.frag < |frags| then frags[at.frag] + at.offset else 0
  }

  /** The final bytes of a chunk: fix-ups are applied and relaxable frags converted. */
  function ResolveChunk(addressSize: nat, frags: seq<nat>, chunk: Chunk): seq<byte> {
    match chunk
    case Bytes(text) => text
    case FixedUp(at) => LittleEndianBytes(AddressOf(frags, at), addressSize)
    case Relaxable(lineDelta, to, from, _) =>
      if AddressOf(frags, from) <= AddressOf(frags, to)
      then IncLineAddr(lineDelta, AddressOf(frags, to) - AddressOf(frags, from)) else []
  }

  function Resolve(addressSize: nat, frags: seq<nat>, out: seq<Chunk>): seq<byte> {
    if out == [] then [] else
      ResolveChunk(addressSize, frags, out[0]) + Resolve(addressSize, frags, out[1..])
  }

  lemma {:induction false} ResolveConcat(addressSize: nat, frags: seq<nat>, a: seq<Chunk>, b: seq<Chunk>)
    ensures Resolve(addressSize, frags, a + b) == Resolve(addressSize, frags, a) + Resolve(addressSize, frags, b)
  {
    if a == [] {
      assert [] + b == b;
    } else {
      assert (a + b)[0] == a[0] && (a + b)[1..] == a[1..] + b;
      ResolveConcat(addressSize, frags, a[1..], b);
    }
  }

  // ---------------------------------------------------------------- what the program means

  /** The row that an entry asks for. */
  function RowOf(frags: seq<nat>, e: Entry): Registers {
    Registers(AddressOf(frags, e.at), e.loc.file, e.loc.line, e.loc.column, e.loc.isStmt, e.loc.basicBlock,
              false, e.loc.prologueEnd, e.loc.epilogueBegin, e.loc.isa)
  }

  /** The registers once the entry's row has been appended. */
  function RegistersOf(t: Track, address: nat): Registers {
    Registers(address, t.file, t.line, t.column, t.isStmt, false, false, false, false, t.isa)
  }

  function EndRow(t: Track, address: nat): Registers {
    RegistersOf(t, address).(endSequence := true)
  }

  /** The table that a section's entries ask for: a row each, in order, and then the end of the sequence. */
  function Table(frags: seq<nat>, t: Track, entries: seq<Entry>, end: Label): seq<Registers>
    decreases entries
  {
    if entries == [] then [EndRow(t, AddressOf(frags, end))]
    else [RowOf(frags, entries[0])] + Table(frags, Follow(entries[0].loc), entries[1..], end)
  }

  /** No step from one line to the next is one that is reserved to mean the end of the sequence. */
  predicate NoClash(t: Track, entries: seq<Entry>)
    decreases entries
  {
    entries == [] || (LineDelta(t, entries[0].loc) != INT_MAX && NoClash(Follow(entries[0].loc), entries[1..]))
  }

  /** The final addresses of the labels do not descend, and fit the target's addresses. */
  predicate Ascending(addressSize: nat, frags: seq<nat>, from: nat, entries: seq<Entry>, end: Label)
    decreases entries
  {
    if entries == [] then from <= AddressOf(frags, end)
    else
      && from <= AddressOf(frags, entries[0].at) < Bytes256(addressSize)
      && entries[0].at.frag < |frags| && end.frag < |frags|
      && Ascending(addressSize, frags, AddressOf(frags, entries[0].at), entries[1..], end)
  }

  lemma DoesOperand(changed: bool, opcode: byte, n: uint32, r: Registers, r': Registers)
    requires opcode == DW_LNS_set_file || opcode == DW_LNS_set_column || opcode == DW_LNS_set_isa
    requires r' == if opcode == DW_LNS_set_file then r.(file := n) else if opcode == DW_LNS_set_column then r.(column := n) else r.(isa := n)
    requires !changed ==> r' == r
    ensures Does(Operand(changed, opcode, n), r, [], r')
  {
    if changed {
      forall rest
        ensures Step([opcode] + Uleb(n) + rest, r) == Some(Effect(rest, r', []))
      {
        StepUleb(opcode, n, rest);
      }
      DoesStep([opcode] + Uleb(n), r, [], r');
    } else {
      DoesNothing(r);
    }
  }

  lemma DoesFlag(wanted: bool, opcode: byte, r: Registers, r': Registers)
    requires opcode in {DW_LNS_negate_stmt, DW_LNS_set_basic_block, DW_LNS_set_prologue_end, DW_LNS_set_epilogue_begin}
    requires r' == if !wanted then r else if opcode == DW_LNS_negate_stmt then r.(isStmt := !r.isStmt)
      else if opcode == DW_LNS_set_basic_block then r.(basicBlock := true)
      else if opcode == DW_LNS_set_prologue_end then r.(prologueEnd := true) else r.(epilogueBegin := true)
    ensures Does(Flag(wanted, opcode), r, [], r')
  {
    if wanted {
      forall rest
        ensures Step([opcode] + rest, r) == Some(Effect(rest, r', []))
      {
        assert ([opcode] + rest)[1..] == rest;
      }
      DoesStep([opcode], r, [], r');
    } else {
      DoesNothing(r);
    }
  }

  lemma DoesBoth(p: seq<byte>, r: Registers, r': Registers, p': seq<byte>, r'': Registers)
    requires Does(p, r, [], r') && Does(p', r', [], r'')
    ensures Does(p + p', r, [], r'')
  {
    hide Does;
    DoesThen(p, r, [], r', p', [], r'');
    var none: seq<Registers> := [];
    assert none + none == none;
  }

  /** The settings make the machine agree with the entry in everything but address and line. */
  lemma DoesSettings(t: Track, loc: Loc, address: nat)
    ensures Does(Settings(t, loc), RegistersOf(t, address), [],
      Registers(address, loc.file, t.line, loc.column, loc.isStmt, loc.basicBlock, false,
                loc.prologueEnd, loc.epilogueBegin, loc.isa))
  {
    hide Does, Operand, Flag;
    var r0 := RegistersOf(t, address);
    var r1 := r0.(file := loc.file);
    var r2 := r1.(column := loc.column);
    var r3 := r2.(isa := loc.isa);
    var r4 := r3.(isStmt := loc.isStmt);
    var r5 := r4.(basicBlock := loc.basicBlock);
    var r6 := r5.(prologueEnd := loc.prologueEnd);
    var r7 := r6.(epilogueBegin := loc.epilogueBegin);
    var s1 := Operand(t.file != loc.file, DW_LNS_set_file, loc.file);
    var s2 := s1 + Operand(t.column != loc.column, DW_LNS_set_column, loc.column);
    var s3 := s2 + Operand(t.isa != loc.isa, DW_LNS_set_isa, loc.isa);
    var s4 := s3 + Flag(loc.isStmt != t.isStmt, DW_LNS_negate_stmt);
    var s5 := s4 + Flag(loc.basicBlock, DW_LNS_set_basic_block);
    var s6 := s5 + Flag(loc.prologueEnd, DW_LNS_set_prologue_end);
    DoesOperand(t.file != loc.file, DW_LNS_set_file, loc.file, r0, r1);
    DoesOperand(t.column != loc.column, DW_LNS_set_column, loc.column, r1, r2);
    DoesOperand(t.isa != loc.isa, DW_LNS_set_isa, loc.isa, r2, r3);
    DoesFlag(loc.isStmt != t.isStmt, DW_LNS_negate_stmt, r3, r4);
    DoesFlag(loc.basicBlock, DW_LNS_set_basic_block, r4, r5);
    DoesFlag(loc.prologueEnd, DW_LNS_set_prologue_end, r5, r6);
    DoesFlag(loc.epilogueBegin, DW_LNS_set_epilogue_begin, r6, r7);
    DoesBoth(s1, r0, r1, Operand(t.column != loc.column, DW_LNS_set_column, loc.column), r2);
    DoesBoth(s2, r0, r2, Operand(t.isa != loc.isa, DW_LNS_set_isa, loc.isa), r3);
    DoesBoth(s3, r0, r3, Flag(loc.isStmt != t.isStmt, DW_LNS_negate_stmt), r4);
    DoesBoth(s4, r0, r4, Flag(loc.basicBlock, DW_LNS_set_basic_block), r5);
    DoesBoth(s5, r0, r5, Flag(loc.prologueEnd, DW_LNS_set_prologue_end), r6);
    DoesBoth(s6, r0, r6, Flag(loc.epilogueBegin, DW_LNS_set_epilogue_begin), r7);
  }

  /** Setting the address: the extended opcode, its length, and the fixed-up bytes. */
  lemma DoesSetAddress(addressSize: nat, address: nat, r: Registers)
    requires address < Bytes256(addressSize)
    ensures Does([DW_LNS_extended_op] + Uleb(addressSize + 1) + [DW_LNE_set_address] + LittleEndianBytes(address, addressSize), r, [],
                 r.(address := address))
  {
    var operand := LittleEndianBytes(address, addressSize);
    var p := [DW_LNS_extended_op] + Uleb(addressSize + 1) + [DW_LNE_set_address] + operand;
    forall rest
      ensures Step(p + rest, r) == Some(Effect(rest, r.(address := address), []))
    {
      assert p + rest == [DW_LNS_extended_op] + Uleb(addressSize + 1) + ([DW_LNE_set_address] + operand + rest);
      StepUleb(DW_LNS_extended_op, addressSize + 1, [DW_LNE_set_address] + operand + rest);
      assert ([DW_LNE_set_address] + operand + rest)[1..addressSize + 1] == operand;
      assert ([DW_LNE_set_address] + operand + rest)[addressSize + 1..] == rest;
      LittleEndianRoundTrip(address, addressSize);
    }
    DoesStep(p, r, [], r.(address := address));
  }

  /** The row that an advance ends in, where the reserved delta ends the sequence instead. */
  function MovedRow(lineDelta: int32, r: Registers, address: nat): Registers {
    if lineDelta == INT_MAX then r.(address := address, endSequence := true)
    else r.(address := address, line := (r.line + lineDelta) % WORD)
  }

  function MovedRegisters(lineDelta: int32, row: Registers): Registers {
    if lineDelta == INT_MAX then INITIAL else Cleared(row)
  }

  lemma IncMeans(lineDelta: int32, addrDelta: nat, r: Registers)
    requires InRange(r)
    ensures var row := MovedRow(lineDelta, r, r.address + addrDelta);
      Does(IncLineAddr(lineDelta, addrDelta), r, [row], MovedRegisters(lineDelta, row))
  {
    hide Does;
    if lineDelta == INT_MAX {
      DoesEnd(addrDelta, r);
    } else {
      DoesRow(lineDelta, addrDelta, r);
    }
  }

  lemma MoveMeans(addressSize: nat, frags: seq<nat>, lineDelta: int32, last: Option<Label>, to: Label, r: Registers)
    requires InRange(r) && to.frag < |frags|
    requires last.None? ==> AddressOf(frags, to) < Bytes256(addressSize)
    requires last.Some? ==> InOrder(last.value, to) && last.value.frag < |frags|
    requires last.Some? ==> r.address == AddressOf(frags, last.value) <= AddressOf(frags, to)
    ensures var row := MovedRow(lineDelta, r, AddressOf(frags, to));
      Does(Resolve(addressSize, frags, Move(addressSize, lineDelta, last, to)), r, [row], MovedRegisters(lineDelta, row))
  {
    match last
    case Some(from) => RelativeMove(addressSize, frags, lineDelta, from, to, r);
    case None => AbsoluteMove(addressSize, frags, lineDelta, to, r);
  }

  lemma RelativeMove(addressSize: nat, frags: seq<nat>, lineDelta: int32, from: Label, to: Label, r: Registers)
    requires InRange(r) && to.frag < |frags| && from.frag < |frags| && InOrder(from, to)
    requires r.address == AddressOf(frags, from) <= AddressOf(frags, to)
    ensures var row := MovedRow(lineDelta, r, AddressOf(frags, to));
      Does(Resolve(addressSize, frags, [Advance(lineDelta, from, to)]), r, [row], MovedRegisters(lineDelta, row))
  {
    hide Does, IncLineAddr, Resolve;
    IncMeans(lineDelta, AddressOf(frags, to) - AddressOf(frags, from), r);
    ResolveOne(addressSize, frags, Advance(lineDelta, from, to));
  }

  lemma AbsoluteMove(addressSize: nat, frags: seq<nat>, lineDelta: int32, to: Label, r: Registers)
    requires InRange(r) && to.frag < |frags| && AddressOf(frags, to) < Bytes256(addressSize)
    ensures var row := MovedRow(lineDelta, r, AddressOf(frags, to));
      Does(Resolve(addressSize, frags, Move(addressSize, lineDelta, None, to)), r, [row], MovedRegisters(lineDelta, row))
  {
    hide Does, IncLineAddr, Uleb, Resolve, LittleEndianBytes, Bytes256, MovedRegisters;
    var row := MovedRow(lineDelta, r, AddressOf(frags, to));
    var opening := [DW_LNS_extended_op] + Uleb(addressSize + 1) + [DW_LNE_set_address];
    var operand := LittleEndianBytes(AddressOf(frags, to), addressSize);
    var inc := IncLineAddr(lineDelta, 0);
    var mid := r.(address := AddressOf(frags, to));
    ResolveThree(addressSize, frags, Bytes(opening), FixedUp(to), Bytes(inc));
    assert Resolve(addressSize, frags, Move(addressSize, lineDelta, None, to)) == opening + operand + inc;
    assert row == MovedRow(lineDelta, mid, mid.address + 0);
    DoesSetAddress(addressSize, AddressOf(frags, to), r);
    IncMeans(lineDelta, 0, mid);
    DoesThen(opening + operand, r, [], mid, inc, [row], MovedRegisters(lineDelta, row));
    assert [] + [row] == [row];
  }

  lemma ResolveThree(addressSize: nat, frags: seq<nat>, a: Chunk, b: Chunk, c: Chunk)
    ensures Resolve(addressSize, frags, [a, b] + [c])
      == ResolveChunk(addressSize, frags, a) + ResolveChunk(addressSize, frags, b) + ResolveChunk(addressSize, frags, c)
  {
    ResolveOne(addressSize, frags, a);
    ResolveOne(addressSize, frags, b);
    ResolveOne(addressSize, frags, c);
    ResolveConcat(addressSize, frags, [a], [b]);
    ResolveConcat(addressSize, frags, [a] + [b], [c]);
    assert [a] + [b] == [a, b];
  }

  lemma ResolveOne(addressSize: nat, frags: seq<nat>, a: Chunk)
    ensures Resolve(addressSize, frags, [a]) == ResolveChunk(addressSize, frags, a)
  {
    assert ResolveChunk(addressSize, frags, a) + [] == ResolveChunk(addressSize, frags, a);
  }

  /** Adding the delta of two 32-bit lines, modulo 32 bits, takes one line to the other. */
  lemma LineDeltaAdds(t: Track, loc: Loc)
    ensures (t.line + LineDelta(t, loc)) % WORD == loc.line
  {
  }

  /** The chunks of an entry append the entry's row; unless the line delta is the reserved one, in
      which case they end the sequence. */
  lemma EntryMeans(addressSize: nat, frags: seq<nat>, t: Track, last: Option<Label>, e: Entry, address: nat)
    requires e.at.frag < |frags| && (last.None? ==> AddressOf(frags, e.at) < Bytes256(addressSize))
    requires last.Some? ==> InOrder(last.value, e.at) && last.value.frag < |frags|
    requires last.Some? ==> address == AddressOf(frags, last.value) <= AddressOf(frags, e.at)
    ensures var program := Resolve(addressSize, frags, EntryChunks(addressSize, t, last, e));
      if LineDelta(t, e.loc) == INT_MAX then
        Does(program, RegistersOf(t, address), [RowOf(frags, e).(line := t.line, endSequence := true)], INITIAL)
      else
        Does(program, RegistersOf(t, address), [RowOf(frags, e)], RegistersOf(Follow(e.loc), AddressOf(frags, e.at)))
  {
    hide Does, Settings, Move, ResolveChunk, LineDelta;
    var lineDelta := LineDelta(t, e.loc);
    var ready := Registers(address, e.loc.file, t.line, e.loc.column, e.loc.isStmt, e.loc.basicBlock, false,
                         e.loc.prologueEnd, e.loc.epilogueBegin, e.loc.isa);
    var row := MovedRow(lineDelta, ready, AddressOf(frags, e.at));
    var settings, move := Settings(t, e.loc), Move(addressSize, lineDelta, last, e.at);
    LineDeltaAdds(t, e.loc);
    DoesSettings(t, e.loc, address);
    MoveMeans(addressSize, frags, lineDelta, last, e.at, ready);
    DoesThen(settings, RegistersOf(t, address), [], ready,
             Resolve(addressSize, frags, move), [row], MovedRegisters(lineDelta, row));
    assert [] + [row] == [row];
    ResolveConcat(addressSize, frags, [Bytes(settings)], move);
    SettingsChunk(addressSize, frags, settings);
  }

  lemma SettingsChunk(addressSize: nat, frags: seq<nat>, text: seq<byte>)
    ensures Resolve(addressSize, frags, [Bytes(text)]) == text
  {
    ResolveOne(addressSize, frags, Bytes(text));
  }

  /** The program of a section means its entries: run by the state machine it appends one row per
      entry, in order, with that entry's address and location, then ends the sequence. */
  lemma {:induction false} ProgramMeans(addressSize: nat, frags: seq<nat>, t: Track, last: Option<Label>,
                                        entries: seq<Entry>, end: Label, address: nat)
    requires AllInOrder(last, entries, end) && (entries == [] ==> last.Some?) && NoClash(t, entries)
    requires last.Some? ==> last.value.frag < |frags| && address == AddressOf(frags, last.value)
    requires end.frag < |frags| && Ascending(addressSize, frags, if last.Some? then address else 0, entries, end)
    ensures Does(Resolve(addressSize, frags, Compiled(addressSize, t, last, entries, end)), RegistersOf(t, address),
                 Table(frags, t, entries, end), INITIAL)
    decreases entries
  {
    hide Does, EntryChunks, ResolveChunk, LineDelta, Resolve;
    if entries == [] {
      MoveMeans(addressSize, frags, INT_MAX, last, end, RegistersOf(t, address));
    } else {
      var e, more := entries[0], entries[1..];
      var next, at := Follow(e.loc), AddressOf(frags, e.at);
      var chunks := EntryChunks(addressSize, t, last, e);
      var rest := Compiled(addressSize, next, Some(e.at), more, end);
      EntryMeans(addressSize, frags, t, last, e, address);
      ProgramMeans(addressSize, frags, next, Some(e.at), more, end, at);
      ResolveConcat(addressSize, frags, chunks, rest);
      DoesThen(Resolve(addressSize, frags, chunks), RegistersOf(t, address), [RowOf(frags, e)], RegistersOf(next, at),
               Resolve(addressSize, frags, rest), Table(frags, next, more, end), INITIAL);
    }
  }

  /** If some line delta is the reserved one, the program means something else. */
  lemma {:induction false} ClashMisleads(addressSize: nat, frags: seq<nat>, t: Track, last: Option<Label>,
                                         entries: seq<Entry>, end: Label, address: nat)
    requires AllInOrder(last, entries, end) && (entries == [] ==> last.Some?) && !NoClash(t, entries)
    requires last.Some? ==> last.value.frag < |frags| && address == AddressOf(frags, last.value)
    requires end.frag < |frags| && Ascending(addressSize, frags, if last.Some? then address else 0, entries, end)
    ensures Run(Resolve(addressSize, frags, Compiled(addressSize, t, last, entries, end)), RegistersOf(t, address))
         != Some(Table(frags, t, entries, end))
    decreases entries
  {
    hide EntryChunks, ResolveChunk, LineDelta, Resolve, Run;
    var e, more := entries[0], entries[1..];
    var next, at := Follow(e.loc), AddressOf(frags, e.at);
    var chunks := EntryChunks(addressSize, t, last, e);
    var rest := Compiled(addressSize, next, Some(e.at), more, end);
    var first, second := Resolve(addressSize, frags, chunks), Resolve(addressSize, frags, rest);
    EntryMeans(addressSize, frags, t, last, e, address);
    ResolveConcat(addressSize, frags, chunks, rest);
    assert Table(frags, t, entries, end)[0] == RowOf(frags, e);
    if LineDelta(t, e.loc) == INT_MAX {
      var wrong := RowOf(frags, e).(line := t.line, endSequence := true);
      assert Run(first + second, RegistersOf(t, address)) == Prepend([wrong], Run(second, INITIAL));
      assert Run(second, INITIAL).Some? ==> ([wrong] + Run(second, INITIAL).value)[0] == wrong;
    } else {
      ClashMisleads(addressSize, frags, next, Some(e.at), more, end, at);
      var tail := Run(second, RegistersOf(next, at));
      assert Run(first + second, RegistersOf(t, address)) == Prepend([RowOf(frags, e)], tail);
      assert tail.Some? ==> ([RowOf(frags, e)] + tail.value)[1..] == tail.value;
    }
  }

  /** The compiled program yields the table that the entries ask for exactly when no step from one
      line to the next, from line 1 on and modulo 32 bits, is INT_MAX. */
  lemma ProgramIsRightIff(addressSize: nat, frags: seq<nat>, entries: seq<Entry>, end: Label)
    requires entries != [] && AllInOrder(None, entries, end) && end.frag < |frags|
    requires Ascending(addressSize, frags, 0, entries, end)
    ensures var program := Resolve(addressSize, frags, Compiled(addressSize, START, None, entries, end));
      NoClash(START, entries) <==> Run(program, INITIAL) == Some(Table(frags, START, entries, end))
  {
    hide Run, Does, Compiled, Resolve, Table, NoClash, AllInOrder, Ascending;
    var program := Resolve(addressSize, frags, Compiled(addressSize, START, None, entries, end));
    assert RegistersOf(START, 0) == INITIAL;
    if NoClash(START, entries) {
      ProgramMeans(addressSize, frags, START, None, entries, end, 0);
      DoesAlone(program, INITIAL, Table(frags, START, entries, end), INITIAL);
    } else {
      ClashMisleads(addressSize, frags, START, None, entries, end, 0);
    }
  }

  /** Lines from 1 to INT_MAX never clash, so for them the program is always right. */
  lemma {:induction false} OrdinaryLinesNeverClash(t: Track, entries: seq<Entry>)
    requires t.line >= 1 && forall e :: e in entries ==> 1 <= e.loc.line <= INT_MAX
    requires t.line <= INT_MAX
    ensures NoClash(t, entries)
    decreases entries
  {
    if entries != [] {
      assert entries[0] in entries && forall e :: e in entries[1..] ==> e in entries;
      OrdinaryLinesNeverClash(Follow(entries[0].loc), entries[1..]);
    }
  }

  /** One location on line 2^31 is enough to go wrong. */
  lemma ClashExample(at: Label)
    ensures !NoClash(START, [Entry(at, Loc(1, 0x8000_0000, 0, 0, true, false, false, false))])
  {
  }

  /** One section's part of the line table. */
  datatype Unit = Unit(frags: seq<nat>, entries: seq<Entry>, end: Label)

  ghost predicate ValidUnit(addressSize: nat, u: Unit) {
    && u.entries != [] && AllInOrder(None, u.entries, u.end) && u.end.frag < |u.frags|
    && Ascending(addressSize, u.frags, 0, u.entries, u.end) && NoClash(START, u.entries)
  }

  ghost function Programs(addressSize: nat, units: seq<Unit>): seq<byte>
    requires forall u :: u in units ==> ValidUnit(addressSize, u)
  {
    if units == [] then [] else
      assert ValidUnit(addressSize, units[0]);
      Resolve(addressSize, units[0].frags, Compiled(addressSize, START, None, units[0].entries, units[0].end))
      + Programs(addressSize, units[1..])
  }

  ghost function Tables(units: seq<Unit>): seq<Registers> {
    if units == [] then [] else
      Table(units[0].frags, START, units[0].entries, units[0].end) + Tables(units[1..])
  }

  /** The programs of all sections, one after the other, mean the tables one after the other: every
      end of sequence puts the machine back where the next program expects it. */
  lemma {:induction false} WholeTableMeans(addressSize: nat, units: seq<Unit>)
    requires forall u :: u in units ==> ValidUnit(addressSize, u)
    ensures Does(Programs(addressSize, units), INITIAL, Tables(units), INITIAL)
  {
    hide Does, Compiled, Resolve, Table, NoClash, AllInOrder, Ascending;
    if units == [] {
      DoesNothing(INITIAL);
    } else {
      var u := units[0];
      assert ValidUnit(addressSize, u);
      assert RegistersOf(START, 0) == INITIAL;
      ProgramMeans(addressSize, u.frags, START, None, u.entries, u.end, 0);
      WholeTableMeans(addressSize, units[1..]);
      DoesThen(Resolve(addressSize, u.frags, Compiled(addressSize, START, None, u.entries, u.end)), INITIAL,
               Table(u.frags, START, u.entries, u.end), INITIAL,
               Programs(addressSize, units[1..]), Tables(units[1..]), INITIAL);
    }
  }

  // ---------------------------------------------------------------- relaxable frags

  /** The room reserved for an address delta of minus one, the largest addressT, is enough for all. */
  lemma ReservedRoomIsEnough(lineDelta: int32, addrDelta: nat)
    requires addrDelta <= ADDRESS_MAX
    ensures |IncLineAddr(lineDelta, addrDelta)| <= |IncLineAddr(lineDelta, ADDRESS_MAX)|
  {
    hide Uleb, Sleb;
    UlebLengthMonotone(addrDelta, ADDRESS_MAX);
  }

  /** A frag of type rs_dwarf2dbg. */
  class DeltaFrag {
    const lineDelta: int32           // fr_offset
    const to: Label                  // the symbols of the difference
    const from: Label
    const literal: array<byte>
    const maxChars: nat              // fr_var
    var fix: nat
    var subtype: nat                 // the size that layout has settled on
    var filled: bool                 // whether the frag has become an rs_fill

    ghost predicate Valid()
      reads this
    {
      maxChars == |IncLineAddr(lineDelta, ADDRESS_MAX)| && (!filled ==> fix + maxChars <= literal.Length)
    }

    /** relax_inc_line_addr: make the frag after some fixed bytes, with room for the longest encoding. */
    constructor (fixed: seq<byte>, lineDelta: int32, to: Label, from: Label)
      ensures Valid() && fresh(literal) && !filled
      ensures fix == |fixed| <= literal.Length && literal[..fix] == fixed
      ensures this.lineDelta == lineDelta && this.to == to && this.from == from
    {
      this.lineDelta, this.to, this.from := lineDelta, to, from;
      var room := SizeIncLineAddr(lineDelta, ADDRESS_MAX);
      maxChars := room;
      fix, subtype, filled := |fixed|, 1, false;
      literal := new byte[|fixed| + room](_ => 0);
      new;
      for k := 0 to |fixed|
        modifies literal
        invariant literal[..k] == fixed[..k]
      {
        literal[k] := fixed[k];
      }
    }

    /** The difference that the frag waits for, under given frag addresses. */
    ghost predicate Spans(frags: seq<nat>, delta: int) {
      && to.frag < |frags| && from.frag < |frags|
      && delta == AddressOf(frags, to) - AddressOf(frags, from) && 0 <= delta < 0x8000_0000_0000_0000
    }

    /** dwarf2dbg_estimate_size_before_relax. */
    method EstimateSize(frags: seq<nat>) returns (size: nat)
      requires to.frag < |frags| && from.frag < |frags| && AddressOf(frags, from) <= AddressOf(frags, to)
      modifies this`subtype
      ensures size == subtype == |IncLineAddr(lineDelta, AddressOf(frags, to) - AddressOf(frags, from))|
    {
      var delta := (frags[to.frag] + to.offset) - (frags[from.frag] + from.offset);
      size := SizeIncLineAddr(lineDelta, delta);
      subtype := size;
    }

    /** dwarf2dbg_relax_frag: by how much the frag's size changes. */
    method Relax(frags: seq<nat>) returns (growth: int)
      requires to.frag < |frags| && from.frag < |frags| && AddressOf(frags, from) <= AddressOf(frags, to)
      modifies this`subtype
      ensures subtype == |IncLineAddr(lineDelta, AddressOf(frags, to) - AddressOf(frags, from))|
      ensures growth == subtype - old(subtype)
    {
      var oldSize: int := subtype;
      var newSize: int := EstimateSize(frags);
      growth := newSize - oldSize;
    }

    /** dwarf2dbg_convert_frag, after the section of the labels has been slid by any amount since the
        size was settled. The assertion that the size fits the reserved room holds, the fatal error of
        emit_inc_line_addr does not happen, and the fixed part gains exactly the bytes of the row. */
    method Convert(frags: seq<nat>, ghost relaxed: seq<nat>, ghost slide: int) returns (fatal: bool)
      requires Valid() && !filled
      requires Spans(relaxed, AddressOf(relaxed, to) - AddressOf(relaxed, from))
      requires subtype == |IncLineAddr(lineDelta, AddressOf(relaxed, to) - AddressOf(relaxed, from))|
      requires |frags| == |relaxed| && forall k :: 0 <= k < |frags| ==> frags[k] == relaxed[k] + slide
      modifies this`fix, this`filled, literal
      ensures !fatal && filled && fix == old(fix) + subtype && fix <= literal.Length
      ensures literal[..fix] == old(literal[..fix])
        + ResolveChunk(8, frags, Relaxable(lineDelta, to, from, maxChars))
    {
      hide IncLineAddr;
      var delta := (frags[to.frag] + to.offset) - (frags[from.frag] + from.offset);
      ReservedRoomIsEnough(lineDelta, delta);
      assert subtype <= maxChars;
      fatal := EmitIncLineAddr(lineDelta, delta, literal, fix, subtype);
      fix := fix + subtype;
      filled := true;
    }
  }

}
