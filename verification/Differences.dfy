/** Differences of labels made absolute before the layout is known: try_to_make_absolute of cctools/as/expr.c, judged by
    the addresses that the frags get in the end (cctools/as/layout.c). */
module Differences {
  import opened Arith
  import opened ExpressionValue
  import opened Operators
  import opened Relax
  import opened Wrappers

  // ---------------------------------------------------------------- the walk over the frags

  /** Only fills and alignments lie between two frags. */
  predicate Spans(chain: seq<Shape>, first: nat, last: nat) {
    first <= last < |chain| && forall k :: first <= k < last ==> !chain[k].tail.Branch?
  }

  /** What the walk counts after one frag, were it not for the 32 bits. */
  function AfterFrag(shape: Shape, size: nat): nat {
    match shape.tail
    case Fill(repeat, n) => size + shape.fix + repeat * n
    case Align(power, _) => RoundUp(size + shape.fix, Pow2(power))
    case Branch(_, _) => size + shape.fix
  }

  /** What the walk counts from one frag to another. */
  function Walked(chain: seq<Shape>, first: nat, last: nat): nat
    requires first <= last <= |chain|
    decreases last
  {
    if first == last then 0 else AfterFrag(chain[last - 1], Walked(chain, first, last - 1))
  }

  /** No alignment is to more than 2^31. */
  predicate PowersFit(chain: seq<Shape>) {
    forall k :: 0 <= k < |chain| && chain[k].tail.Align? ==> chain[k].tail.power < 32
  }

  /** Rounding up is padding. */
  lemma RoundUpPads(v: nat, power: nat)
    ensures RoundUp(v, Pow2(power)) == v + RelaxAlign(v, power)
    ensures RoundUp(v, Pow2(power)) % Pow2(power) == 0
  {
    hide Pow2;
    RoundUpIsNext(v, Pow2(power));
    assert v + Pow2(power) - 1 == v + (Pow2(power) - 1);
  }

  /** Rounding up does not mind what is a multiple anyway. */
  lemma RoundUpShift(v: nat, m: nat, r: nat)
    requires r > 0 && m % r == 0
    ensures RoundUp(v + m, r) == RoundUp(v, r) + m
  {
    var k := m / r;
    assert m == k * r;
    var x := v + r - 1;
    assert x + m == (x / r + k) * r + x % r;
    DivModUnique(x + m, r, x / r + k, x % r);
    assert (x / r + k) * r == x / r * r + k * r;
  }

  lemma SmallPowerDivides(power: nat)
    requires power < 32
    ensures UINT32 % Pow2(power) == 0
  {
    Pow2Words();
    hide Pow2;
    Pow2Add(power, 32 - power);
    DividesProduct(Pow2(power), Pow2(32 - power), UINT32);
  }

  lemma DividesProduct(p: nat, q: nat, x: nat)
    requires p > 0 && x == p * q
    ensures x % p == 0
  {
    ModOfMultiple(q, p);
  }

  lemma MultipleOf(k: int, m: nat, r: nat)
    requires r > 0 && m % r == 0
    ensures (k * m) % r == 0
  {
    var q := m / r;
    assert m == q * r;
    MulAssoc(k, q, r);
    ModOfMultiple(k * q, r);
  }

  /** In 32 bits the walk counts the same, modulo 2^32. */
  lemma AfterFragWraps(shape: Shape, size: nat)
    requires shape.tail.Align? ==> shape.tail.power < 32
    ensures shape.tail.Fill? ==>
      (size % UINT32 + shape.fix + shape.tail.repeat * shape.tail.size) % UINT32 == AfterFrag(shape, size) % UINT32
    ensures shape.tail.Align? ==>
      RoundUp((size % UINT32 + shape.fix) % UINT32, Pow2(shape.tail.power)) % UINT32 == AfterFrag(shape, size) % UINT32
  {
    hide RoundUp, Pow2;
    if shape.tail.Align? {
      RoundUpWraps(size + shape.fix, shape.tail.power);
      AddWraps(size, shape.fix);
    } else if shape.tail.Fill? {
      AddWraps(size, shape.fix + shape.tail.repeat * shape.tail.size);
    }
  }

  lemma AddWraps(x: nat, y: nat)
    ensures (x % UINT32 + y) % UINT32 == (x + y) % UINT32
  {
  }

  lemma RoundUpWraps(v: nat, power: nat)
    requires power < 32
    ensures RoundUp(v % UINT32, Pow2(power)) % UINT32 == RoundUp(v, Pow2(power)) % UINT32
  {
    SmallPowerDivides(power);
    hide Pow2, RoundUp;
    var k, r := v / UINT32, Pow2(power);
    MultipleOf(k, UINT32, r);
    RoundUpShift(v % UINT32, k * UINT32, r);
    assert v == v % UINT32 + k * UINT32;
    WholeWords(RoundUp(v % UINT32, r), k);
  }

  lemma WholeWords(x: nat, k: nat)
    ensures (x + k * UINT32) % UINT32 == x % UINT32
  {
  }

  lemma {:induction false} ChainSizeIs(chain: seq<Shape>, first: nat, last: nat, at: nat)
    requires PowersFit(chain) && first <= at <= |chain| && (first <= last ==> at <= last) && (at < |chain| ==> Spans(chain, first, at))
    ensures var size := ChainSize(chain, at, last, if at < |chain| then Walked(chain, first, at) % UINT32 else 0);
      size == if Spans(chain, first, last) then Some(Walked(chain, first, last) % UINT32) else None
    decreases |chain| - at
  {
    hide RoundUp;
    if at < |chain| && at != last && !chain[at].tail.Branch? {
      AfterFragWraps(chain[at], Walked(chain, first, at));
      if at + 1 < |chain| {
        ChainSizeIs(chain, first, last, at + 1);
      }
    }
  }

  // ---------------------------------------------------------------- the walk and the layout

  /** Every alignment on the way is to a power that divides the address. */
  predicate StartsAligned(chain: seq<Shape>, first: nat, last: nat, address: int)
    requires last <= |chain|
  {
    forall k :: first <= k < last && chain[k].tail.Align? ==> address % Pow2(chain[k].tail.power) == 0
  }

  /** No alignment on the way has a maximum. */
  predicate Unlimited(chain: seq<Shape>, first: nat, last: nat)
    requires last <= |chain|
  {
    forall k :: first <= k < last && chain[k].tail.Align? ==> chain[k].tail.limit == 0
  }

  /** The alignments on the way that are done in a layout. */
  ghost predicate AllApplied(table: RelaxTable, chain: seq<Shape>, states: seq<nat>, first: nat, last: nat)
    requires ValidStates(table, chain, states) && last <= |chain|
  {
    forall k :: first <= k < last && chain[k].tail.Align? ==> Applied(chain[k], AddressOf(table, chain, states, k))
  }

  ghost function Distance(table: RelaxTable, chain: seq<Shape>, states: seq<nat>, first: nat, last: nat): int
    requires ValidStates(table, chain, states) && first <= |chain| && last <= |chain|
  {
    AddressOf(table, chain, states, last) - AddressOf(table, chain, states, first)
  }

  /** By how much the walk is off. */
  ghost function Misrounding(table: RelaxTable, chain: seq<Shape>, states: seq<nat>, first: nat, last: nat): int
    requires ValidStates(table, chain, states) && first <= last <= |chain|
  {
    Walked(chain, first, last) % UINT32 - Distance(table, chain, states, first, last)
  }

  /** One frag of a layout: a fill moves on by its size, an alignment that is done to a multiple. */
  lemma LayoutFrag(table: RelaxTable, chain: seq<Shape>, states: seq<nat>, k: nat)
    requires ValidStates(table, chain, states) && k < |chain| && !chain[k].tail.Branch?
    requires Applied(chain[k], AddressOf(table, chain, states, k)) || !chain[k].tail.Align?
    ensures AddressOf(table, chain, states, k + 1) == AfterFrag(chain[k], AddressOf(table, chain, states, k))
  {
    if chain[k].tail.Align? {
      RoundUpPads(AddressOf(table, chain, states, k) + chain[k].fix, chain[k].tail.power);
    }
  }

  /** From an aligned start, when every alignment is done, the walk counts the true distance. */
  lemma {:induction false} AlignedWalk(table: RelaxTable, chain: seq<Shape>, states: seq<nat>, first: nat, last: nat)
    requires ValidStates(table, chain, states) && Spans(chain, first, last) && AllApplied(table, chain, states, first, last)
    requires StartsAligned(chain, first, last, AddressOf(table, chain, states, first))
    ensures Walked(chain, first, last) == Distance(table, chain, states, first, last)
    decreases last
  {
    if first < last {
      AlignedWalk(table, chain, states, first, last - 1);
      LayoutFrag(table, chain, states, last - 1);
      if chain[last - 1].tail.Align? {
        RoundUpShift(Walked(chain, first, last - 1) + chain[last - 1].fix, AddressOf(table, chain, states, first),
                     Pow2(chain[last - 1].tail.power));
      }
    }
  }

  /** Some power that does not divide the start divides what the walk counts less the address reached. */
  predicate OffBy(start: nat, walked: nat, address: nat, power: nat) {
    power < 32 && start % Pow2(power) != 0 && (walked - address) % Pow2(power) == 0
  }

  /** From a start that is not aligned the walk goes wrong and stays wrong. */
  lemma {:induction false} MisalignedWalk(table: RelaxTable, chain: seq<Shape>, states: seq<nat>, first: nat, last: nat)
    returns (power: nat)
    requires ValidStates(table, chain, states) && PowersFit(chain) && Spans(chain, first, last) && Unlimited(chain, first, last)
    requires !StartsAligned(chain, first, last, AddressOf(table, chain, states, first))
    ensures OffBy(AddressOf(table, chain, states, first), Walked(chain, first, last), AddressOf(table, chain, states, last), power)
    decreases last
  {
    var start := AddressOf(table, chain, states, first);
    var shape, walked, address := chain[last - 1], Walked(chain, first, last - 1), AddressOf(table, chain, states, last - 1);
    LayoutFrag(table, chain, states, last - 1);
    hide AddressOf, Walked, AfterFrag, OffBy, Pow2;
    power := 0;
    if !(shape.tail.Align? && start % Pow2(shape.tail.power) != 0) {
      power := MisalignedWalk(table, chain, states, first, last - 1);
    }
    power := OffByStep(shape, start, walked, address, power);
  }

  lemma OffByStep(shape: Shape, start: nat, walked: nat, address: nat, before: nat) returns (power: nat)
    requires !shape.tail.Branch? && (shape.tail.Align? ==> shape.tail.power < 32)
    requires OffBy(start, walked, address, before) || (shape.tail.Align? && start % Pow2(shape.tail.power) != 0)
    ensures OffBy(start, AfterFrag(shape, walked), AfterFrag(shape, address), power)
  {
    hide Pow2, RoundUp;
    power := before;
    if shape.tail.Align? {
      if start % Pow2(shape.tail.power) != 0 {
        power := shape.tail.power;
        BothRounded(walked + shape.fix, address + shape.fix, power);
      } else {
        SamePadding(start, walked + shape.fix, address + shape.fix, power, shape.tail.power);
      }
    }
  }

  lemma BothRounded(v: nat, w: nat, power: nat)
    ensures (RoundUp(v, Pow2(power)) - RoundUp(w, Pow2(power))) % Pow2(power) == 0
  {
    RoundUpPads(v, power);
    RoundUpPads(w, power);
    hide RoundUp, Pow2;
    DifferenceOfMultiples(RoundUp(v, Pow2(power)), RoundUp(w, Pow2(power)), Pow2(power));
  }

  lemma DifferenceOfMultiples(x: int, y: int, r: nat)
    requires r > 0 && x % r == 0 && y % r == 0
    ensures (x - y) % r == 0
  {
    assert x - y == (x / r - y / r) * r;
    ModOfMultiple(x / r - y / r, r);
  }

  /** A power that divides the start is smaller, and pads both alike. */
  lemma SamePadding(start: nat, v: nat, w: nat, power: nat, small: nat)
    requires OffBy(start, v, w, power) && start % Pow2(small) == 0
    ensures OffBy(start, RoundUp(v, Pow2(small)), RoundUp(w, Pow2(small)), power)
  {
    if small >= power {
      PowerOfPower(start, power, small);
    } else {
      PowerOfPower(v - w, small, power);
      hide Pow2;
      if v >= w {
        RoundUpShift(w, v - w, Pow2(small));
      } else {
        DifferenceOfMultiples(0, v - w, Pow2(small));
        RoundUpShift(v, w - v, Pow2(small));
      }
    }
  }

  lemma PowerOfPower(x: int, small: nat, big: nat)
    requires small <= big && x % Pow2(big) == 0
    ensures x % Pow2(small) == 0
  {
    hide Pow2;
    Pow2Add(small, big - small);
    DividesProduct(Pow2(small), Pow2(big - small), Pow2(big));
    MultipleOf(x / Pow2(big), Pow2(big), Pow2(small));
  }

  /** Without maxima the walk is right exactly when the first frag starts at a multiple of every power on the way and the
      second one is less than 2^32 bytes away. */
  lemma MisroundingIsZeroIff(table: RelaxTable, chain: seq<Shape>, states: seq<nat>, first: nat, last: nat)
    requires ValidStates(table, chain, states) && PowersFit(chain) && Spans(chain, first, last) && Unlimited(chain, first, last)
    ensures Misrounding(table, chain, states, first, last) == 0
      <==> StartsAligned(chain, first, last, AddressOf(table, chain, states, first))
           && Distance(table, chain, states, first, last) < UINT32
  {
    var start, end, walked := AddressOf(table, chain, states, first), AddressOf(table, chain, states, last), Walked(chain, first, last);
    if StartsAligned(chain, first, last, start) {
      forall k | first <= k < last && chain[k].tail.Align? ensures Applied(chain[k], AddressOf(table, chain, states, k)) {
      }
      AlignedWalk(table, chain, states, first, last);
    } else {
      var power := MisalignedWalk(table, chain, states, first, last);
      NotOff(start, end, walked, power);
    }
    AddressesAscend(table, chain, states, first, last);
    hide *;
    SmallRemainder(walked, end - start);
  }

  lemma SmallRemainder(x: nat, y: nat)
    ensures x == y ==> (x % UINT32 - y == 0 <==> y < UINT32)
  {
  }

  lemma {:induction false} AddressesAscend(table: RelaxTable, chain: seq<Shape>, states: seq<nat>, first: nat, last: nat)
    requires ValidStates(table, chain, states) && first <= last <= |chain|
    ensures AddressOf(table, chain, states, first) <= AddressOf(table, chain, states, last)
    decreases last
  {
    if first < last {
      AddressesAscend(table, chain, states, first, last - 1);
    }
  }

  lemma NotOff(start: nat, end: nat, walked: nat, power: nat)
    requires OffBy(start, walked, end, power)
    ensures walked % UINT32 != end - start
  {
    SmallPowerDivides(power);
    hide Pow2;
    if walked % UINT32 == end - start {
      NotAligned(start, end, walked, power);
    }
  }

  lemma NotAligned(start: nat, end: nat, walked: nat, power: nat)
    requires walked % UINT32 == end - start && UINT32 % Pow2(power) == 0 && (walked - end) % Pow2(power) == 0
    ensures start % Pow2(power) == 0
  {
    hide Pow2;
    var k, r := walked / UINT32, Pow2(power);
    MultipleOf(k, UINT32, r);
    assert walked == k * UINT32 + (end - start);
    DifferenceOfMultiples(k * UINT32, walked - end, r);
  }

  /** With maxima it is right from such a start when every alignment is done. */
  lemma AppliedWalkIsRight(table: RelaxTable, chain: seq<Shape>, states: seq<nat>, first: nat, last: nat)
    requires ValidStates(table, chain, states) && Spans(chain, first, last) && AllApplied(table, chain, states, first, last)
    requires StartsAligned(chain, first, last, AddressOf(table, chain, states, first))
    requires Distance(table, chain, states, first, last) < UINT32
    ensures Misrounding(table, chain, states, first, last) == 0
  {
    AlignedWalk(table, chain, states, first, last);
    hide AddressOf, Walked;
  }

  // ---------------------------------------------------------------- what it means for expressions

  /** The difference of two labels in different frags of a section with only fills and alignments between them. */
  predicate PassesFrags(env: Environment, e: Expression) {
    && e.seg.Diffsect? && !env.dynamic && e.add.Some? && e.subtract.Some?
    && match (env.Lookup(e.add.value), env.Lookup(e.subtract.value))
       case (Placed(s, f, _), Placed(s', f', _)) => s == s' && f != f' && s in env.chains && Spans(env.chains[s], f', f)
       case _ => false
  }

  /** The labels are where a layout puts them. */
  ghost predicate LaidOut(env: Environment, e: Expression, v: string -> int, table: RelaxTable, states: map<nat, seq<nat>>) {
    && (forall s :: s in env.chains ==> s in states && ValidStates(table, env.chains[s], states[s]) && PowersFit(env.chains[s]))
    && (e.add.Some? ==> IsAt(env, e.add.value, v, table, states))
    && (e.subtract.Some? ==> IsAt(env, e.subtract.value, v, table, states))
  }

  ghost predicate IsAt(env: Environment, name: string, v: string -> int, table: RelaxTable, states: map<nat, seq<nat>>) {
    match env.Lookup(name)
    case Placed(s, f, x) =>
      && s in env.chains && f < |env.chains[s]| && s in states && ValidStates(table, env.chains[s], states[s])
      && AddressOf(table, env.chains[s], states[s], f) < HALF
      && v(name) == AddressOf(table, env.chains[s], states[s], f) + x
    case _ => true
  }

  /** The number by which the walk for such a difference is off. */
  ghost function MisroundingOf(env: Environment, e: Expression, table: RelaxTable, states: map<nat, seq<nat>>): int
    requires PassesFrags(env, e)
    requires forall s :: s in env.chains ==> s in states && ValidStates(table, env.chains[s], states[s])
  {
    var add, subtract := env.Lookup(e.add.value), env.Lookup(e.subtract.value);
    Misrounding(table, env.chains[add.section], states[add.section], subtract.frag, add.frag)
  }

  /** Making a difference absolute keeps its value always when the frags are not walked over, and otherwise exactly when the
      number that is then dropped makes up for the misrounding. */
  lemma MakeAbsoluteIsRightIff(env: Environment, e: Expression, v: string -> int, table: RelaxTable, states: map<nat, seq<nat>>)
    requires Sound(e) && LaidOut(env, e, v, table, states)
    ensures Wrap(Denotes(MakeAbsolute(env, e), v)) == Wrap(Denotes(e, v))
      <==> !PassesFrags(env, e) || e.number == MisroundingOf(env, e, table, states)
  {
    hide Wrap, AddressOf, Walked, ChainSize;
    if PassesFrags(env, e) {
      PassedFrags(env, e, v, table, states);
    } else {
      KeptDifference(env, e, v, table, states);
    }
  }

  /** Without a number of its own, and without maxima, it is right exactly when the subtracted label's frag starts at a
      multiple of every power on the way, less than 2^32 bytes before the other. */
  lemma PlainDifferenceIsRightIff(env: Environment, e: Expression, v: string -> int, table: RelaxTable, states: map<nat, seq<nat>>)
    requires Sound(e) && LaidOut(env, e, v, table, states) && PassesFrags(env, e) && e.number == 0
    requires Unlimited(ChainOf(env, e), env.Lookup(e.subtract.value).frag, env.Lookup(e.add.value).frag)
    ensures var chain, first, last := ChainOf(env, e), env.Lookup(e.subtract.value).frag, env.Lookup(e.add.value).frag;
      var state := states[env.Lookup(e.add.value).section];
      Wrap(Denotes(MakeAbsolute(env, e), v)) == Wrap(Denotes(e, v))
      <==> StartsAligned(chain, first, last, AddressOf(table, chain, state, first))
           && Distance(table, chain, state, first, last) < UINT32
  {
    var add, subtract := env.Lookup(e.add.value), env.Lookup(e.subtract.value);
    MakeAbsoluteIsRightIff(env, e, v, table, states);
    MisroundingIsZeroIff(table, env.chains[add.section], states[add.section], subtract.frag, add.frag);
    hide Wrap, Denotes, MakeAbsolute, AddressOf, Walked, StartsAligned;
  }

  /** The chain that holds both labels. */
  function ChainOf(env: Environment, e: Expression): seq<Shape>
    requires PassesFrags(env, e)
  {
    env.chains[env.Lookup(e.add.value).section]
  }

  lemma PassedFrags(env: Environment, e: Expression, v: string -> int, table: RelaxTable, states: map<nat, seq<nat>>)
    requires LaidOut(env, e, v, table, states) && PassesFrags(env, e)
    ensures Wrap(Denotes(MakeAbsolute(env, e), v)) == Wrap(Denotes(e, v)) <==> e.number == MisroundingOf(env, e, table, states)
  {
    hide Wrap, AddressOf, Walked, ChainSize;
    var add, subtract := env.Lookup(e.add.value), env.Lookup(e.subtract.value);
    var chain, state := env.chains[add.section], states[add.section];
    assert Walked(chain, subtract.frag, subtract.frag) == 0 by { WalkedNowhere(chain, subtract.frag); }
    ChainSizeIs(chain, subtract.frag, add.frag, subtract.frag);
    var size := Walked(chain, subtract.frag, add.frag) % UINT32;
    var n := size + add.offset - subtract.offset;
    assert MakeAbsolute(env, e) == Constant(Wrap(n)).(halved := e.halved);
    var distance := Distance(table, chain, state, subtract.frag, add.frag);
    AddressesAscend(table, chain, state, subtract.frag, add.frag);
    assert Denotes(e, v) == distance + add.offset - subtract.offset + e.number;
    Rest(n, distance + add.offset - subtract.offset + e.number, e.number, size - distance);
    WrapTwice(n);
  }

  lemma WalkedNowhere(chain: seq<Shape>, k: nat)
    requires k <= |chain|
    ensures Walked(chain, k, k) == 0
  {
  }

  lemma WrapTwice(n: int)
    ensures Wrap(Wrap(n)) == Wrap(n)
  {
    WrapAdd(0, n);
  }

  lemma Rest(n: int, m: int, number: Int64, misrounding: int)
    requires n - m == misrounding - number && -HALF < misrounding < HALF
    ensures Wrap(n) == Wrap(m) <==> number == misrounding
  {
    WrapEqual(n, m);
    hide Wrap;
    assert -WHOLE < misrounding - number < WHOLE;
  }

  lemma KeptDifference(env: Environment, e: Expression, v: string -> int, table: RelaxTable, states: map<nat, seq<nat>>)
    requires Sound(e) && LaidOut(env, e, v, table, states) && !PassesFrags(env, e)
    ensures Wrap(Denotes(MakeAbsolute(env, e), v)) == Wrap(Denotes(e, v))
  {
    hide Wrap, AddressOf, Walked, ChainSize;
    if e.seg.Diffsect? && !env.dynamic && e.add.Some? && e.subtract.Some? {
      var add, subtract := env.Lookup(e.add.value), env.Lookup(e.subtract.value);
      if add.Placed? && subtract.Placed? {
        if add.section == subtract.section && add.frag == subtract.frag {
          WrapTwice(e.number + add.offset - subtract.offset);
        } else if add.section == subtract.section {
          NoChainSize(env.chains[add.section], subtract.frag, add.frag);
        }
      }
    }
  }

  lemma NoChainSize(chain: seq<Shape>, first: nat, last: nat)
    requires PowersFit(chain) && first < |chain| && !Spans(chain, first, last)
    ensures ChainSize(chain, first, last, 0).None?
  {
    WalkedNowhere(chain, first);
    hide Walked;
    ChainSizeIs(chain, first, last, first);
  }

  // ---------------------------------------------------------------- where it goes wrong

  const FILLED := Shape(0, Fill(1, 1))
  const MISALIGNED := [FILLED, Shape(2, Align(2, 0)), Shape(0, Fill(0, 0))]
  const LIMITED := [Shape(1, Align(2, 1)), Shape(0, Fill(0, 0))]
  const SPREAD := [Shape(3, Fill(0, 0)), Shape(0, Fill(0, 0))]
  const DIFFERENCE := Expression(Diffsect, Some("b"), Some("a"), 0, false)

  /** After one byte, a label a, two bytes and an alignment to four bytes, a label b: b - a is three, and reads as four. */
  lemma MisalignedExample()
    ensures var env := Environment(map["a" := Placed(0, 1, 0), "b" := Placed(0, 2, 0)], map[0 := MISALIGNED], false);
      MakeAbsolute(env, DIFFERENCE) == Constant(4)
    ensures AddressOf([], MISALIGNED, [0, 0, 0], 1) == 1 && AddressOf([], MISALIGNED, [0, 0, 0], 2) == 4
  {
    assert Pow2(2) == 4;
    assert AddressOf([], MISALIGNED, [0, 0, 0], 0) == 0;
    assert RelaxAlign(3, 2) == 1;
    assert RoundUp(2, 4) == 4 && MISALIGNED[1] == Shape(2, Align(2, 0));
    assert ChainSize(MISALIGNED, 2, 2, 4) == Some(4);
    assert ChainSize(MISALIGNED, 1, 2, 0) == Some(4);
  }

  /** After one byte an alignment to four bytes that may take one at most, and so none: b - a is one, and reads as four. */
  lemma LimitedAlignExample()
    ensures var env := Environment(map["a" := Placed(0, 0, 0), "b" := Placed(0, 1, 0)], map[0 := LIMITED], false);
      MakeAbsolute(env, DIFFERENCE) == Constant(4)
    ensures AddressOf([], LIMITED, [0, 0], 1) == 1
  {
  }

  /** Three bytes apart b - a + 5 is eight, and reads as three. */
  lemma DroppedNumberExample()
    ensures var env := Environment(map["a" := Placed(0, 0, 0), "b" := Placed(0, 1, 0)], map[0 := SPREAD], false);
      MakeAbsolute(env, DIFFERENCE.(number := 5)) == Constant(3)
    ensures AddressOf([], SPREAD, [0, 0], 1) == 3
  {
  }
}
