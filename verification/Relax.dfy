/** Span-dependent layout of one section: relax_section of cctools/as/layout.c.

    The frags of a section form a chain; a frag is a fixed part followed by a variable tail.
    relax_section lays the chain out from address zero and then makes passes over it, letting
    the relaxable branches move up their chains of states, until a pass stretches nothing.

    The heap-level methods are proved against the value-level notions declared first: a chain
    of shapes, one state per frag, and the addresses that those two determine. */
module Relax {
  import opened Arith
  import opened Wrappers

  // ---------------------------------------------------------------- the relax table

  type Byte = n: nat | n < 256

  /** One entry of md_relax_table: how far a state reaches, how long it is, where it grows to. */
  datatype RelaxType = RelaxType(forward: int, backward: int, length: Byte, more: nat)

  type RelaxTable = seq<RelaxType>

  /** Every state that can grow grows to a strictly longer one, and reaches at least itself. */
  ghost predicate ValidTable(table: RelaxTable) {
    forall s :: 0 <= s < |table| ==> ValidEntry(table, s)
  }

  predicate ValidEntry(table: RelaxTable, s: nat)
    requires s < |table|
  {
    table[s].more != 0 ==>
      && table[s].more < |table|
      && table[s].length < table[table[s].more].length
      && table[s].backward <= 0 <= table[s].forward
  }

  /** State t lies on the rlx_more chain that starts at s. */
  ghost predicate Reaches(table: RelaxTable, s: nat, t: nat)
    requires ValidTable(table) && s < |table|
    decreases 255 - table[s].length
  {
    assert ValidEntry(table, s);
    s == t || (table[s].more != 0 && Reaches(table, table[s].more, t))
  }

  /** The state's reach covers the displacement, or there is no longer state to try. */
  predicate Fits(table: RelaxTable, s: nat, aim: int)
    requires s < |table|
  {
    table[s].more == 0 || if aim < 0 then table[s].backward <= aim else aim <= table[s].forward
  }

  /** The first state of the chain from s that fits. */
  ghost function Grow(table: RelaxTable, s: nat, aim: int): (t: nat)
    requires ValidTable(table) && s < |table|
    ensures t < |table| && Reaches(table, s, t) && Fits(table, t, aim)
    decreases 255 - table[s].length
  {
    assert ValidEntry(table, s);
    if Fits(table, s, aim) then s else Grow(table, table[s].more, aim)
  }

  lemma {:induction false} ReachesTransitive(table: RelaxTable, s: nat, t: nat, u: nat)
    requires ValidTable(table) && s < |table| && t < |table|
    requires Reaches(table, s, t) && Reaches(table, t, u)
    ensures Reaches(table, s, u)
    decreases 255 - table[s].length
  {
    if s != t {
      assert ValidEntry(table, s);
      ReachesTransitive(table, table[s].more, t, u);
    }
  }

  /** A chain only gets longer, and strictly so unless it stands still. */
  lemma {:induction false} ReachesLonger(table: RelaxTable, s: nat, t: nat)
    requires ValidTable(table) && s < |table| && t < |table| && Reaches(table, s, t)
    ensures table[s].length <= table[t].length
    ensures table[s].length == table[t].length ==> s == t
    decreases 255 - table[s].length
  {
    if s != t {
      assert ValidEntry(table, s);
      ReachesLonger(table, table[s].more, t);
    }
  }

  /** One displacement is at least as demanding as another. */
  predicate NoFurther(aim: int, aim': int) {
    aim == 0 || 0 < aim <= aim' || aim' <= aim < 0
  }

  /** Growing for a displacement never passes a state that copes with a more demanding one. */
  lemma {:induction false} GrowIsLeast(table: RelaxTable, s: nat, aim: int, t: nat, aim': int)
    requires ValidTable(table) && s < |table| && t < |table|
    requires Reaches(table, s, t) && Fits(table, t, aim') && NoFurther(aim, aim')
    ensures Reaches(table, Grow(table, s, aim), t)
    decreases 255 - table[s].length
  {
    if !Fits(table, s, aim) {
      assert ValidEntry(table, s);
      GrowIsLeast(table, table[s].more, aim, t, aim');
    }
  }

  // ---------------------------------------------------------------- shapes and layouts

  /** Where a symbol lives: in a frag of this chain, or at an absolute address. */
  datatype Home = Here(index: nat) | Absolute

  datatype Symbol = Symbol(value: int, home: Home)

  datatype Tail =
    | Fill(repeat: nat, size: nat)
    | Align(power: nat, limit: nat)                    // a limit of zero means no limit
    | Branch(symbol: Option<Symbol>, offset: int)

  datatype Shape = Shape(fix: nat, tail: Tail)

  ghost predicate ValidChain(chain: seq<Shape>) {
    forall k :: 0 <= k < |chain| ==> ValidShape(|chain|, chain[k])
  }

  ghost predicate ValidShape(n: nat, shape: Shape) {
    match shape.tail
    case Branch(Some(Symbol(_, Here(j))), _) => j < n
    case _ => true
  }

  ghost predicate ValidStates(table: RelaxTable, chain: seq<Shape>, states: seq<nat>) {
    |states| == |chain| &&
    forall k :: 0 <= k < |chain| && chain[k].tail.Branch? ==> states[k] < |table|
  }

  /** How many addresses an alignment takes: up to the next multiple of the power of two. */
  function RelaxAlign(address: int, power: nat): (pad: nat)
    ensures pad < Pow2(power) && (address + pad) % Pow2(power) == 0
  {
    var mask := Pow2(power) - 1;
    var next := (address + mask) / Pow2(power) * Pow2(power);
    RoundUpIsNext(address, Pow2(power));
    next - address
  }

  lemma RoundUpIsNext(address: int, r: nat)
    requires r > 0
    ensures address <= (address + (r - 1)) / r * r < address + r
    ensures (address + (r - 1)) / r * r % r == 0
  {
    var q := (address + (r - 1)) / r;
    assert (address + (r - 1)) == q * r + (address + (r - 1)) % r;
    ModOfMultiple(q, r);
  }

  /** The padding of an align tail: nothing when it would exceed the given limit. */
  function Padding(address: int, power: nat, limit: nat): (pad: nat)
    ensures pad < Pow2(power)
  {
    var pad := RelaxAlign(address, power);
    if limit != 0 && pad > limit then 0 else pad
  }

  /** The current size of a frag's tail when the frag starts at the given address. */
  function TailSize(table: RelaxTable, shape: Shape, address: int, state: nat): nat
    requires shape.tail.Branch? ==> state < |table|
  {
    match shape.tail
    case Fill(repeat, size) => repeat * size
    case Align(power, limit) => Padding(address + shape.fix, power, limit)
    case Branch(_, _) => table[state].length
  }

  /** The address of frag k when the chain is laid out from zero with the given states. */
  ghost function AddressOf(table: RelaxTable, chain: seq<Shape>, states: seq<nat>, k: nat): nat
    requires ValidStates(table, chain, states) && k <= |chain|
  {
    if k == 0 then 0 else
      var before := AddressOf(table, chain, states, k - 1);
      before + chain[k-1].fix + TailSize(table, chain[k-1], before, states[k-1])
  }

  /** Frag k ends where frag k+1 starts. */
  ghost predicate Adjacent(table: RelaxTable, chain: seq<Shape>, states: seq<nat>, addr: seq<int>, k: nat)
    requires ValidStates(table, chain, states) && k + 1 < |addr| == |chain|
  {
    addr[k+1] == addr[k] + chain[k].fix + TailSize(table, chain[k], addr[k], states[k])
  }

  /** The first n frags follow each other without gaps, from address zero. */
  ghost predicate Contiguous(table: RelaxTable, chain: seq<Shape>, states: seq<nat>, addr: seq<int>, n: nat)
    requires ValidStates(table, chain, states) && n <= |addr| == |chain|
  {
    && (n > 0 ==> addr[0] == 0)
    && forall k :: 0 <= k < n - 1 ==> Adjacent(table, chain, states, addr, k)
  }

  /** The distance from the end of branch i's fixed part to its target. */
  function Displacement(chain: seq<Shape>, addr: seq<int>, i: nat): int
    requires i < |chain| == |addr| && chain[i].tail.Branch? && ValidShape(|chain|, chain[i])
  {
    var target := match chain[i].tail.symbol
      case None => 0
      case Some(Symbol(value, Here(j))) => value + addr[j]
      case Some(Symbol(value, Absolute)) => value;
    chain[i].tail.offset + target - addr[i] - chain[i].fix
  }

  ghost function Layout(table: RelaxTable, chain: seq<Shape>, states: seq<nat>): (addr: seq<int>)
    requires ValidStates(table, chain, states)
    ensures |addr| == |chain| && forall k :: 0 <= k < |chain| ==> addr[k] == AddressOf(table, chain, states, k)
  {
    seq(|chain|, k requires 0 <= k < |chain| => AddressOf(table, chain, states, k))
  }

  lemma {:induction false} AddressIsLayout(table: RelaxTable, chain: seq<Shape>, states: seq<nat>, addr: seq<int>, k: nat)
    requires ValidStates(table, chain, states) && k < |addr| == |chain|
    requires Contiguous(table, chain, states, addr, |chain|)
    ensures addr[k] == AddressOf(table, chain, states, k)
  {
    if k > 0 {
      AddressIsLayout(table, chain, states, addr, k - 1);
      assert Adjacent(table, chain, states, addr, k - 1);
    }
  }

  /** There is only one way to lay the chain out without gaps. */
  lemma ContiguousIsLayout(table: RelaxTable, chain: seq<Shape>, states: seq<nat>, addr: seq<int>)
    requires ValidStates(table, chain, states) && |addr| == |chain|
    ensures Contiguous(table, chain, states, addr, |chain|) <==> addr == Layout(table, chain, states)
  {
    if Contiguous(table, chain, states, addr, |chain|) {
      forall k | 0 <= k < |chain|
        ensures addr[k] == Layout(table, chain, states)[k]
      {
        AddressIsLayout(table, chain, states, addr, k);
      }
    }
  }

  /** Under the addresses, every branch reaches its target or is as long as it can get. */
  ghost predicate AllFit(table: RelaxTable, chain: seq<Shape>, states: seq<nat>, addr: seq<int>)
    requires ValidStates(table, chain, states) && ValidChain(chain) && |addr| == |chain|
  {
    forall k :: 0 <= k < |chain| && chain[k].tail.Branch? ==>
      Fits(table, states[k], Displacement(chain, addr, k))
  }

  /** A settled assignment: under its own layout every branch fits. */
  ghost predicate Settled(table: RelaxTable, chain: seq<Shape>, states: seq<nat>) {
    && ValidStates(table, chain, states) && ValidChain(chain)
    && AllFit(table, chain, states, Layout(table, chain, states))
  }

  /** Every branch of the second assignment lies at or above the first in its chain of states. */
  ghost predicate Above(table: RelaxTable, chain: seq<Shape>, states: seq<nat>, states': seq<nat>)
    requires ValidTable(table) && ValidStates(table, chain, states)
  {
    && ValidStates(table, chain, states')
    && forall k :: 0 <= k < |chain| && chain[k].tail.Branch? ==> Reaches(table, states[k], states'[k])
  }

  lemma AboveTransitive(table: RelaxTable, chain: seq<Shape>, s: seq<nat>, t: seq<nat>, u: seq<nat>)
    requires ValidTable(table) && ValidStates(table, chain, s)
    requires Above(table, chain, s, t) && Above(table, chain, t, u)
    ensures Above(table, chain, s, u)
  {
    forall k | 0 <= k < |chain| && chain[k].tail.Branch?
      ensures Reaches(table, s[k], u[k])
    {
      ReachesTransitive(table, s[k], t[k], u[k]);
    }
  }

  // ---------------------------------------------------------------- room left to grow

  /** How much longer the branches of the first n frags could still become. */
  ghost function Room(table: RelaxTable, chain: seq<Shape>, states: seq<nat>, n: nat): nat
    requires ValidStates(table, chain, states) && n <= |chain|
  {
    if n == 0 then 0 else
      Room(table, chain, states, n - 1) +
      if chain[n-1].tail.Branch? then 255 - table[states[n-1]].length else 0
  }

  /** Raising one branch's state uses up exactly the length it gained. */
  lemma {:induction false} RoomAfterGrowth(table: RelaxTable, chain: seq<Shape>, states: seq<nat>, i: nat, t: nat, n: nat)
    requires ValidStates(table, chain, states) && i < |chain| && n <= |chain|
    requires chain[i].tail.Branch? && t < |table|
    ensures Room(table, chain, states[i := t], n)
         == Room(table, chain, states, n) - if i < n then table[t].length - table[states[i]].length else 0
  {
    if n > 0 {
      RoomAfterGrowth(table, chain, states, i, t, n - 1);
    }
  }

  // ---------------------------------------------------------------- minimality

  /** Only fills and branches, and every branch aims at a label inside the fixed part of a frag. */
  ghost predicate LabelsOnly(chain: seq<Shape>) {
    forall k :: 0 <= k < |chain| ==> !chain[k].tail.Align? && (chain[k].tail.Branch? ==> AimsAtLabel(chain, k))
  }

  ghost predicate AimsAtLabel(chain: seq<Shape>, k: nat)
    requires k < |chain| && chain[k].tail.Branch?
  {
    match chain[k].tail.symbol
    case Some(Symbol(value, Here(j))) => j < |chain| && 0 <= chain[k].tail.offset + value <= chain[j].fix
    case _ => false
  }

  /** Without aligns, raising states can only push frags further apart. */
  lemma {:induction false} DistancesGrow(table: RelaxTable, chain: seq<Shape>, states: seq<nat>, addr: seq<int>,
                                         states': seq<nat>, i: nat, j: nat)
    requires ValidTable(table) && ValidStates(table, chain, states) && Above(table, chain, states, states')
    requires LabelsOnly(chain) && |addr| == |chain| && i <= j < |chain|
    requires Contiguous(table, chain, states, addr, j + 1)
    ensures 0 <= addr[j] - addr[i] <= AddressOf(table, chain, states', j) - AddressOf(table, chain, states', i)
    ensures i < j ==> chain[i].fix <= addr[j] - addr[i]
    decreases j - i
  {
    if i < j {
      DistancesGrow(table, chain, states, addr, states', i, j - 1);
      assert Adjacent(table, chain, states, addr, j - 1);
      if chain[j-1].tail.Branch? {
        ReachesLonger(table, states[j-1], states'[j-1]);
      }
    }
  }

  /** The displacement that relax_section works out for branch i half way through a pass: frags
      before i have moved already, and a target further down is assumed to move by the stretch. */
  function PassAim(chain: seq<Shape>, addr0: seq<int>, addr: seq<int>, i: nat): int
    requires i < |chain| == |addr0| == |addr| && chain[i].tail.Branch? && ValidShape(|chain|, chain[i])
  {
    match chain[i].tail.symbol
    case Some(Symbol(_, Here(j))) =>
      if i < j then Displacement(chain, addr0, i) else Displacement(chain, addr, i)
    case _ => Displacement(chain, addr, i)
  }

  /** The heart of minimality: the guess made in mid-pass never asks for more than any settled
      assignment above the current one needs. */
  lemma AimIsNoFurther(table: RelaxTable, chain: seq<Shape>, states0: seq<nat>, addr0: seq<int>,
                       states: seq<nat>, addr: seq<int>, i: nat, goal: seq<nat>)
    requires ValidTable(table) && ValidChain(chain) && LabelsOnly(chain)
    requires ValidStates(table, chain, states0) && ValidStates(table, chain, states)
    requires i < |chain| == |addr0| == |addr| && chain[i].tail.Branch?
    requires Contiguous(table, chain, states0, addr0, |chain|) && Above(table, chain, states0, goal)
    requires Contiguous(table, chain, states, addr, i + 1) && Above(table, chain, states, goal)
    ensures NoFurther(PassAim(chain, addr0, addr, i), Displacement(chain, Layout(table, chain, goal), i))
  {
    assert AimsAtLabel(chain, i);
    var j := chain[i].tail.symbol.value.home.index;
    if i < j {
      DistancesGrow(table, chain, states0, addr0, goal, i, j);
    } else {
      DistancesGrow(table, chain, states, addr, goal, j, i);
    }
  }

  // ---------------------------------------------------------------- the chain in memory

  class Frag {
    const fix: nat
    const tail: Tail
    var address: int
    var lastAddress: int
    var subtype: nat      // the relax state of a branch

    constructor (fix: nat, tail: Tail, subtype: nat)
      ensures this.fix == fix && this.tail == tail && this.subtype == subtype
      ensures address == 0 && lastAddress == 0
    {
      this.fix, this.tail, this.subtype := fix, tail, subtype;
      address, lastAddress := 0, 0;
    }
  }

  ghost predicate Distinct(frags: seq<Frag>) {
    forall i, j :: 0 <= i < j < |frags| ==> frags[i] != frags[j]
  }

  ghost function Chain(frags: seq<Frag>): (chain: seq<Shape>)
    ensures |chain| == |frags|
    ensures forall k :: 0 <= k < |frags| ==> chain[k] == Shape(frags[k].fix, frags[k].tail)
  {
    seq(|frags|, k requires 0 <= k < |frags| => Shape(frags[k].fix, frags[k].tail))
  }

  /** The mutable fields of the chain, as values. */
  ghost predicate Holds(frags: seq<Frag>, states: seq<nat>, addr: seq<int>)
    reads frags
  {
    && |states| == |frags| == |addr|
    && forall k :: 0 <= k < |frags| ==> frags[k].subtype == states[k] && frags[k].address == addr[k]
  }

  /** Is frag j after frag i in the chain? The source follows the links from i. */
  method IsDownRange(frags: seq<Frag>, i: nat, j: nat) returns (after: bool)
    requires i < |frags|
    ensures after <==> i < j < |frags|
  {
    var f := i;
    while f < |frags|
      invariant i <= f <= |frags|
      invariant !(i < j <= f && j < |frags|)
    {
      if f + 1 < |frags| && f + 1 == j {
        return true;
      }
      f := f + 1;
    }
    return false;
  }

  /** The two loops that look backwards or forwards for a state that reaches. */
  method GrowState(table: RelaxTable, start: nat, aim: int) returns (state: nat)
    requires ValidTable(table) && start < |table|
    ensures state == Grow(table, start, aim)
  {
    state := start;
    var next := table[state].more;
    if aim < 0 {
      while next != 0
        invariant state < |table| && Grow(table, state, aim) == Grow(table, start, aim)
        invariant next == table[state].more || (next == 0 && Fits(table, state, aim))
        decreases next != 0, 255 - table[state].length
      {
        assert ValidEntry(table, state);
        if aim >= table[state].backward {
          next := 0;
        } else {
          state := next;
          next := table[state].more;
        }
      }
    } else {
      while next != 0
        invariant state < |table| && Grow(table, state, aim) == Grow(table, start, aim)
        invariant next == table[state].more || (next == 0 && Fits(table, state, aim))
        decreases next != 0, 255 - table[state].length
      {
        assert ValidEntry(table, state);
        if aim <= table[state].forward {
          next := 0;
        } else {
          state := next;
          next := table[state].more;
        }
      }
    }
  }

  /** The displacement of a branch, as worked out in the middle of a pass. */
  method AimOf(frags: seq<Frag>, i: nat, wasAddress: int, stretch: int, ghost addr0: seq<int>, ghost addr: seq<int>)
    returns (aim: int)
    requires i < |frags| == |addr0| == |addr| && ValidChain(Chain(frags)) && frags[i].tail.Branch?
    requires forall k :: 0 <= k < |frags| ==> frags[k].address == addr[k]
    requires wasAddress == addr0[i] && addr[i] == addr0[i] + stretch
    requires forall k :: i < k < |frags| ==> addr[k] == addr0[k] && addr0[i] <= addr0[k]
    ensures aim == PassAim(Chain(frags), addr0, addr, i)
  {
    var target := frags[i].tail.offset;
    assert ValidShape(|frags|, Chain(frags)[i]);
    match frags[i].tail.symbol {
      case None =>
      case Some(Symbol(value, Absolute)) =>
        target := target + value;
      case Some(Symbol(value, Here(j))) =>
        target := target + value + frags[j].address;
        var down := IsDownRange(frags, i, j);
        if frags[j].address >= wasAddress && down {
          target := target + stretch;
        }
    }
    return target - frags[i].address - frags[i].fix;
  }

  ghost predicate BelowEveryGoal(table: RelaxTable, chain: seq<Shape>, states0: seq<nat>, states: seq<nat>)
    requires ValidTable(table) && ValidStates(table, chain, states0) && ValidStates(table, chain, states)
  {
    forall goal :: Settled(table, chain, goal) && Above(table, chain, states0, goal) ==> Above(table, chain, states, goal)
  }

  /** Growing one branch, as a step of the pass, seen on values. */
  lemma GrowthStep(table: RelaxTable, chain: seq<Shape>, states0: seq<nat>, addr0: seq<int>,
                   states: seq<nat>, addr: seq<int>, i: nat)
    requires ValidTable(table) && ValidChain(chain) && i < |chain| && chain[i].tail.Branch?
    requires ValidStates(table, chain, states0) && Above(table, chain, states0, states)
    requires |addr0| == |addr| == |chain| && states[i] == states0[i]
    requires Contiguous(table, chain, states0, addr0, |chain|) && Contiguous(table, chain, states, addr, i + 1)
    ensures var t := Grow(table, states[i], PassAim(chain, addr0, addr, i));
      && Above(table, chain, states0, states[i := t])
      && (LabelsOnly(chain) && BelowEveryGoal(table, chain, states0, states)
          ==> BelowEveryGoal(table, chain, states0, states[i := t]))
  {
    var aim := PassAim(chain, addr0, addr, i);
    var t := Grow(table, states[i], aim);
    if LabelsOnly(chain) && BelowEveryGoal(table, chain, states0, states) {
      forall goal | Settled(table, chain, goal) && Above(table, chain, states0, goal)
        ensures Above(table, chain, states[i := t], goal)
      {
        AimIsNoFurther(table, chain, states0, addr0, states, addr, i, goal);
        GrowIsLeast(table, states[i], aim, goal[i], Displacement(chain, Layout(table, chain, goal), i));
      }
    }
  }

  /** A pass under way: the states and addresses so far, the growth so far, and whether anything grew. */
  datatype PassState = PassState(states: seq<nat>, addr: seq<int>, stretch: int, stretched: bool)

  /** Half way through a pass, the frags before i are laid out afresh and the rest untouched. */
  ghost predicate MidLayout(table: RelaxTable, chain: seq<Shape>, states0: seq<nat>, addr0: seq<int>, p: PassState, i: nat)
    requires ValidStates(table, chain, states0) && |addr0| == |chain|
  {
    && i <= |chain| && |p.addr| == |chain| && ValidStates(table, chain, p.states)
    && (forall k :: i <= k < |chain| ==> p.states[k] == states0[k] && p.addr[k] == addr0[k])
    && Contiguous(table, chain, p.states, p.addr, i)
    && (i < |chain| ==> addr0[i] + p.stretch == if i == 0 then 0 else
          p.addr[i-1] + chain[i-1].fix + TailSize(table, chain[i-1], p.addr[i-1], p.states[i-1]))
  }

  /** Half way through a pass, anything that stretched did so because some branch grew. */
  ghost predicate MidGrowth(table: RelaxTable, chain: seq<Shape>, states0: seq<nat>, addr0: seq<int>, p: PassState, i: nat)
    requires ValidTable(table) && ValidChain(chain) && ValidStates(table, chain, states0) && |addr0| == |chain|
    requires ValidStates(table, chain, p.states) && i <= |chain|
  {
    && Room(table, chain, p.states, |chain|) <= Room(table, chain, states0, |chain|)
    && (p.stretched ==> Room(table, chain, p.states, |chain|) < Room(table, chain, states0, |chain|))
    && (!p.stretched ==> p.stretch == 0 && p.states == states0 && p.addr == addr0)
    && (!p.stretched ==> forall k :: 0 <= k < i && chain[k].tail.Branch? ==>
          Fits(table, states0[k], Displacement(chain, addr0, k)))
    && (AllFit(table, chain, states0, addr0) ==> !p.stretched)
  }

  ghost predicate MidPass(table: RelaxTable, chain: seq<Shape>, states0: seq<nat>, addr0: seq<int>, p: PassState, i: nat)
    requires ValidTable(table) && ValidChain(chain) && ValidStates(table, chain, states0) && |addr0| == |chain|
  {
    && MidLayout(table, chain, states0, addr0, p, i)
    && Above(table, chain, states0, p.states)
    && MidGrowth(table, chain, states0, addr0, p, i)
    && (LabelsOnly(chain) ==> BelowEveryGoal(table, chain, states0, p.states))
  }

  /** The state that a pass leaves frag i in. */
  ghost function NextState(table: RelaxTable, chain: seq<Shape>, addr0: seq<int>, addr: seq<int>, i: nat, state: nat): (t: nat)
    requires ValidTable(table) && ValidChain(chain) && i < |chain| == |addr0| == |addr|
    requires chain[i].tail.Branch? ==> state < |table|
    ensures chain[i].tail.Branch? ==> t < |table|
  {
    if chain[i].tail.Branch? then Grow(table, state, PassAim(chain, addr0, addr, i)) else state
  }

  /** What the pass does to frag i: move it by the stretch, then let its tail grow. */
  ghost function PassStep(table: RelaxTable, chain: seq<Shape>, addr0: seq<int>, p: PassState, i: nat): (p': PassState)
    requires ValidTable(table) && ValidChain(chain) && i < |chain| == |addr0| == |p.addr|
    requires ValidStates(table, chain, p.states)
    ensures ValidStates(table, chain, p'.states) && |p'.addr| == |chain|
  {
    var moved := p.addr[i := addr0[i] + p.stretch];
    var state := NextState(table, chain, addr0, moved, i, p.states[i]);
    var growth := TailSize(table, chain[i], moved[i], state) - TailSize(table, chain[i], addr0[i], p.states[i]);
    PassState(p.states[i := state], moved, p.stretch + growth, p.stretched || growth != 0)
  }

  lemma LayoutStep(table: RelaxTable, chain: seq<Shape>, states0: seq<nat>, addr0: seq<int>, p: PassState, i: nat)
    requires ValidTable(table) && ValidChain(chain) && ValidStates(table, chain, states0) && |addr0| == |chain|
    requires Contiguous(table, chain, states0, addr0, |chain|)
    requires MidLayout(table, chain, states0, addr0, p, i) && i < |chain|
    ensures Contiguous(table, chain, p.states, p.addr[i := addr0[i] + p.stretch], i + 1)
    ensures MidLayout(table, chain, states0, addr0, PassStep(table, chain, addr0, p, i), i + 1)
  {
    var p' := PassStep(table, chain, addr0, p, i);
    forall k | 0 <= k < i
      ensures Adjacent(table, chain, p.states, p'.addr, k) && Adjacent(table, chain, p'.states, p'.addr, k)
    {
      assert k < i - 1 ==> Adjacent(table, chain, p.states, p.addr, k);
    }
    if i + 1 < |chain| {
      assert Adjacent(table, chain, states0, addr0, i);
    }
  }

  lemma GrowthBookkeeping(table: RelaxTable, chain: seq<Shape>, states0: seq<nat>, addr0: seq<int>, p: PassState, i: nat)
    requires ValidTable(table) && ValidChain(chain) && ValidStates(table, chain, states0) && |addr0| == |chain|
    requires |p.addr| == |chain| && ValidStates(table, chain, p.states) && i < |chain|
    requires p.states[i] == states0[i] && p.addr[i] == addr0[i]
    requires MidGrowth(table, chain, states0, addr0, p, i)
    ensures MidGrowth(table, chain, states0, addr0, PassStep(table, chain, addr0, p, i), i + 1)
  {
    var p' := PassStep(table, chain, addr0, p, i);
    if chain[i].tail.Branch? {
      ReachesLonger(table, p.states[i], p'.states[i]);
      RoomAfterGrowth(table, chain, p.states, i, p'.states[i], |chain|);
      if !p.stretched {
        assert p'.addr == addr0;
        assert PassAim(chain, addr0, p'.addr, i) == Displacement(chain, addr0, i);
      }
    } else {
      assert p'.states == p.states;
    }
  }

  lemma FragStep(table: RelaxTable, chain: seq<Shape>, states0: seq<nat>, addr0: seq<int>, p: PassState, i: nat)
    requires ValidTable(table) && ValidChain(chain) && ValidStates(table, chain, states0) && |addr0| == |chain|
    requires Contiguous(table, chain, states0, addr0, |chain|)
    requires MidPass(table, chain, states0, addr0, p, i) && i < |chain|
    ensures MidPass(table, chain, states0, addr0, PassStep(table, chain, addr0, p, i), i + 1)
  {
    var p' := PassStep(table, chain, addr0, p, i);
    LayoutStep(table, chain, states0, addr0, p, i);
    GrowthBookkeeping(table, chain, states0, addr0, p, i);
    if chain[i].tail.Branch? {
      GrowthStep(table, chain, states0, addr0, p.states, p'.addr, i);
    } else {
      assert p'.states == p.states;
    }
  }

  /** The state of a pass that has dealt with the frags before i. */
  ghost function PassTo(table: RelaxTable, chain: seq<Shape>, states0: seq<nat>, addr0: seq<int>, i: nat): (p: PassState)
    requires ValidTable(table) && ValidChain(chain) && ValidStates(table, chain, states0) && i <= |chain| == |addr0|
    ensures ValidStates(table, chain, p.states) && |p.addr| == |chain|
  {
    if i == 0 then PassState(states0, addr0, 0, false)
    else PassStep(table, chain, addr0, PassTo(table, chain, states0, addr0, i - 1), i - 1)
  }

  lemma {:induction false} PassInvariant(table: RelaxTable, chain: seq<Shape>, states0: seq<nat>, addr0: seq<int>, i: nat)
    requires ValidTable(table) && ValidChain(chain) && ValidStates(table, chain, states0) && i <= |chain| == |addr0|
    requires Contiguous(table, chain, states0, addr0, |chain|)
    ensures MidPass(table, chain, states0, addr0, PassTo(table, chain, states0, addr0, i), i)
  {
    if i > 0 {
      PassInvariant(table, chain, states0, addr0, i - 1);
      FragStep(table, chain, states0, addr0, PassTo(table, chain, states0, addr0, i - 1), i - 1);
    }
  }

  /** The switch of the pass: how much the tail of frag i grows now that the frag has moved. */
  method GrowthOf(table: RelaxTable, frags: seq<Frag>, i: nat, wasAddress: int, stretch: int,
                  ghost states: seq<nat>, ghost addr0: seq<int>, ghost addr: seq<int>) returns (growth: int)
    requires ValidTable(table) && Distinct(frags) && ValidChain(Chain(frags)) && i < |frags|
    requires Holds(frags, states, addr) && |addr0| == |addr| && ValidStates(table, Chain(frags), states)
    requires wasAddress == addr0[i] && addr[i] == addr0[i] + stretch
    requires forall k :: i < k < |frags| ==> addr[k] == addr0[k] && addr0[i] <= addr0[k]
    modifies frags`subtype
    ensures var state := NextState(table, Chain(frags), addr0, addr, i, states[i]);
      && Holds(frags, states[i := state], addr)
      && growth == TailSize(table, Chain(frags)[i], addr[i], state) - TailSize(table, Chain(frags)[i], addr0[i], states[i])
  {
    match frags[i].tail {
      case Fill(_, _) =>
        growth := 0;
      case Align(power, limit) =>
        var oldoff := RelaxAlign(wasAddress + frags[i].fix, power);
        var newoff := RelaxAlign(frags[i].address + frags[i].fix, power);
        if limit != 0 {
          if oldoff > limit { oldoff := 0; }
          if newoff > limit { newoff := 0; }
        }
        growth := newoff - oldoff;
      case Branch(_, _) =>
        var aim := AimOf(frags, i, wasAddress, stretch, addr0, addr);
        var state := GrowState(table, frags[i].subtype, aim);
        ReachesLonger(table, states[i], state);
        growth := table[state].length - table[frags[i].subtype].length;
        if growth != 0 {
          frags[i].subtype := state;
        }
    }
  }

  /** What the code relies on when it reaches frag i in a pass. */
  lemma OnReaching(table: RelaxTable, chain: seq<Shape>, states0: seq<nat>, addr0: seq<int>, i: nat)
    requires ValidTable(table) && ValidChain(chain) && ValidStates(table, chain, states0) && i < |chain| == |addr0|
    requires Contiguous(table, chain, states0, addr0, |chain|)
    ensures forall k :: i <= k < |chain| ==> PassTo(table, chain, states0, addr0, i).addr[k] == addr0[k] >= addr0[i]
  {
    PassInvariant(table, chain, states0, addr0, i);
    AddressesRise(table, chain, states0, addr0, i);
  }

  /** The body of the pass: move frag i, then let it grow. */
  method VisitFrag(table: RelaxTable, frags: seq<Frag>, i: nat, stretch: int, ghost addr0: seq<int>, ghost p: PassState)
    returns (growth: int)
    requires ValidTable(table) && Distinct(frags) && ValidChain(Chain(frags)) && i < |frags| == |addr0|
    requires Holds(frags, p.states, p.addr) && ValidStates(table, Chain(frags), p.states) && stretch == p.stretch
    requires forall k :: i <= k < |frags| ==> p.addr[k] == addr0[k] >= addr0[i]
    modifies frags`address, frags`subtype
    ensures var p' := PassStep(table, Chain(frags), addr0, p, i);
      Holds(frags, p'.states, p'.addr) && growth == p'.stretch - stretch && p'.stretched == (p.stretched || growth != 0)
  {
    var wasAddress := frags[i].address;
    frags[i].address := wasAddress + stretch;
    growth := GrowthOf(table, frags, i, wasAddress, stretch, p.states, addr0, p.addr[i := wasAddress + stretch]);
  }

  /** One pass over the chain. */
  method RelaxPass(table: RelaxTable, frags: seq<Frag>, ghost states0: seq<nat>, ghost addr0: seq<int>)
    returns (stretched: bool)
    requires ValidTable(table) && Distinct(frags) && ValidChain(Chain(frags))
    requires Holds(frags, states0, addr0) && ValidStates(table, Chain(frags), states0)
    requires Contiguous(table, Chain(frags), states0, addr0, |frags|)
    modifies frags`address, frags`subtype
    ensures var p := PassTo(table, Chain(frags), states0, addr0, |frags|);
      Holds(frags, p.states, p.addr) && stretched == p.stretched
  {
    ghost var chain := Chain(frags);
    ghost var p := PassTo(table, chain, states0, addr0, 0);
    var stretch := 0;
    stretched := false;
    for i := 0 to |frags|
      invariant p == PassTo(table, chain, states0, addr0, i)
      invariant Holds(frags, p.states, p.addr) && stretch == p.stretch && stretched == p.stretched
    {
      OnReaching(table, chain, states0, addr0, i);
      var growth := VisitFrag(table, frags, i, stretch, addr0, p);
      p := PassStep(table, chain, addr0, p, i);
      if growth != 0 {
        stretch := stretch + growth;
        stretched := true;
      }
    }
  }

  lemma AddressesRise(table: RelaxTable, chain: seq<Shape>, states: seq<nat>, addr: seq<int>, i: nat)
    requires ValidStates(table, chain, states) && |addr| == |chain|
    requires Contiguous(table, chain, states, addr, |chain|)
    ensures forall k :: i <= k < |chain| ==> addr[i] <= addr[k]
  {
    forall k | i <= k < |chain|
      ensures addr[i] <= addr[k]
    {
      AddressRises(table, chain, states, addr, i, k);
    }
  }

  lemma {:induction false} AddressRises(table: RelaxTable, chain: seq<Shape>, states: seq<nat>, addr: seq<int>, i: nat, k: nat)
    requires ValidStates(table, chain, states) && i <= k < |addr| == |chain|
    requires Contiguous(table, chain, states, addr, |chain|)
    ensures addr[i] <= addr[k]
  {
    if i < k {
      AddressRises(table, chain, states, addr, i, k - 1);
      assert Adjacent(table, chain, states, addr, k - 1);
    }
  }

  // ---------------------------------------------------------------- the whole section

  class Section {
    const frags: seq<Frag>
    const zerofill: bool
    var align: nat

    constructor (frags: seq<Frag>, zerofill: bool, align: nat)
      ensures this.frags == frags && this.zerofill == zerofill && this.align == align
    {
      this.frags, this.zerofill, this.align := frags, zerofill, align;
    }
  }

  /** An align tail is applied unless it would take more than its limit. */
  predicate Applied(shape: Shape, address: int) {
    shape.tail.Align? && (shape.tail.limit == 0 || RelaxAlign(address + shape.fix, shape.tail.power) <= shape.tail.limit)
  }

  /** The section's alignment after the first loop has seen the first n frags at the given addresses:
      an applied limited align raises it to its own power. */
  ghost function RaisedAlign(chain: seq<Shape>, addr: seq<int>, align: nat, n: nat): nat
    requires n <= |chain| == |addr|
  {
    if n == 0 then align else
      var before := RaisedAlign(chain, addr, align, n - 1);
      if Applied(chain[n-1], addr[n-1]) && chain[n-1].tail.limit != 0 && before < chain[n-1].tail.power
      then chain[n-1].tail.power else before
  }

  predicate IsLimitedAlign(shape: Shape, power: nat) {
    shape.tail.Align? && shape.tail.limit != 0 && shape.tail.power == power
  }

  /** The section ends up aligned at least as strictly as every limited align applied in it, and no more strictly than
      before or than one of them. */
  lemma {:induction false} AppliedAlignsAreRecorded(chain: seq<Shape>, addr: seq<int>, align: nat, n: nat)
    requires n <= |chain| == |addr|
    ensures RaisedAlign(chain, addr, align, n) >= align
    ensures forall k :: 0 <= k < n && Applied(chain[k], addr[k]) && chain[k].tail.limit != 0 ==>
      chain[k].tail.power <= RaisedAlign(chain, addr, align, n)
    ensures RaisedAlign(chain, addr, align, n) == align ||
      exists k :: 0 <= k < n && IsLimitedAlign(chain[k], RaisedAlign(chain, addr, align, n))
  {
    if n > 0 {
      AppliedAlignsAreRecorded(chain, addr, align, n - 1);
    }
  }

  ghost predicate Subtypes(frags: seq<Frag>, states: seq<nat>)
    reads frags
  {
    |states| == |frags| && forall k :: 0 <= k < |frags| ==> frags[k].subtype == states[k]
  }

  /** The align case of the first loop: an applied limited align raises the section's alignment. */
  method GuessAlign(section: Section, address: int, power: nat, limit: nat) returns (offset: nat)
    modifies section`align
    ensures offset == Padding(address, power, limit)
    ensures section.align == if limit != 0 && RelaxAlign(address, power) <= limit && old(section.align) < power
                             then power else old(section.align)
  {
    offset := RelaxAlign(address, power);
    if limit != 0 {
      if offset > limit {
        offset := 0;
      } else if section.align < power {
        section.align := power;
      }
    }
  }

  /** The body of the first loop: place frag i, and find where the next one starts. */
  method GuessFrag(table: RelaxTable, section: Section, i: nat, start: int) returns (address: int)
    requires Distinct(section.frags) && i < |section.frags|
    requires section.frags[i].tail.Branch? ==> section.frags[i].subtype < |table|
    modifies section`align, section.frags`address
    ensures section.frags[i].address == start
    ensures forall k :: 0 <= k < |section.frags| && k != i ==> section.frags[k].address == old(section.frags[k].address)
    ensures address == start + section.frags[i].fix
      + TailSize(table, Chain(section.frags)[i], start, section.frags[i].subtype)
    ensures var shape := Chain(section.frags)[i];
      section.align == if Applied(shape, start) && shape.tail.limit != 0 && old(section.align) < shape.tail.power
                       then shape.tail.power else old(section.align)
  {
    var frag := section.frags[i];
    frag.address := start;
    address := start + frag.fix;
    match frag.tail {
      case Fill(repeat, size) =>
        address := address + repeat * size;
      case Align(power, limit) =>
        var offset := GuessAlign(section, address, power, limit);
        address := address + offset;
      case Branch(_, _) =>
        address := address + table[frag.subtype].length;
    }
  }

  /** The first loop of relax_section: a first guess of every address, and the section's alignment. */
  method FirstGuess(table: RelaxTable, section: Section, ghost states: seq<nat>, ghost addr: seq<int>)
    requires Distinct(section.frags) && Subtypes(section.frags, states)
    requires ValidStates(table, Chain(section.frags), states) && |addr| == |section.frags|
    requires Contiguous(table, Chain(section.frags), states, addr, |addr|)
    modifies section`align, section.frags`address
    ensures Holds(section.frags, states, addr)
    ensures section.align == RaisedAlign(Chain(section.frags), addr, old(section.align), |section.frags|)
  {
    ghost var chain := Chain(section.frags);
    var address := 0;
    for i := 0 to |section.frags|
      invariant Subtypes(section.frags, states)
      invariant i < |addr| ==> address == addr[i]
      invariant forall k :: 0 <= k < i ==> section.frags[k].address == addr[k]
      invariant section.align == RaisedAlign(chain, addr, old(section.align), i)
    {
      address := GuessFrag(table, section, i, address);
      assert i + 1 < |addr| ==> Adjacent(table, chain, states, addr, i);
    }
  }

  /** What a whole pass achieves. */
  lemma PassOutcome(table: RelaxTable, chain: seq<Shape>, states0: seq<nat>, addr0: seq<int>)
    requires ValidTable(table) && ValidChain(chain) && ValidStates(table, chain, states0)
    requires addr0 == Layout(table, chain, states0)
    ensures var p := PassTo(table, chain, states0, addr0, |chain|);
      && Above(table, chain, states0, p.states) && p.addr == Layout(table, chain, p.states)
      && (p.stretched ==> Room(table, chain, p.states, |chain|) < Room(table, chain, states0, |chain|))
      && (!p.stretched ==> p.states == states0 && Settled(table, chain, p.states))
      && (Settled(table, chain, states0) ==> !p.stretched)
      && (LabelsOnly(chain) ==> BelowEveryGoal(table, chain, states0, p.states))
  {
    ContiguousIsLayout(table, chain, states0, addr0);
    PassInvariant(table, chain, states0, addr0, |chain|);
    var p := PassTo(table, chain, states0, addr0, |chain|);
    ContiguousIsLayout(table, chain, p.states, p.addr);
  }

  /** The states that relax_section ends with: passes are repeated until one stretches nothing. */
  ghost function RelaxedStates(table: RelaxTable, chain: seq<Shape>, states0: seq<nat>): (states: seq<nat>)
    requires ValidTable(table) && ValidChain(chain) && ValidStates(table, chain, states0)
    ensures ValidStates(table, chain, states)
    decreases Room(table, chain, states0, |chain|)
  {
    var p := PassTo(table, chain, states0, Layout(table, chain, states0), |chain|);
    PassOutcome(table, chain, states0, Layout(table, chain, states0));
    if p.stretched then RelaxedStates(table, chain, p.states) else p.states
  }

  /** Relaxation is sound: it only moves branches up their chains, and when it stops every branch
      reaches its target or is as long as it gets. It leaves a settled assignment alone. */
  lemma {:induction false} RelaxationIsSound(table: RelaxTable, chain: seq<Shape>, states0: seq<nat>)
    requires ValidTable(table) && ValidChain(chain) && ValidStates(table, chain, states0)
    ensures var states := RelaxedStates(table, chain, states0);
      && Above(table, chain, states0, states) && Settled(table, chain, states)
      && (Settled(table, chain, states0) ==> states == states0)
    decreases Room(table, chain, states0, |chain|)
  {
    var p := PassTo(table, chain, states0, Layout(table, chain, states0), |chain|);
    PassOutcome(table, chain, states0, Layout(table, chain, states0));
    if p.stretched {
      RelaxationIsSound(table, chain, p.states);
      AboveTransitive(table, chain, states0, p.states, RelaxedStates(table, chain, p.states));
    }
  }

  /** Relaxation is optimal on chains of fills and branches to labels: every settled assignment
      above the starting one lies above the result, and so puts no frag at a lower address. */
  lemma {:induction false} RelaxationIsMinimal(table: RelaxTable, chain: seq<Shape>, states0: seq<nat>, goal: seq<nat>)
    requires ValidTable(table) && ValidChain(chain) && ValidStates(table, chain, states0) && LabelsOnly(chain)
    requires Settled(table, chain, goal) && Above(table, chain, states0, goal)
    ensures var states := RelaxedStates(table, chain, states0);
      && Above(table, chain, states, goal)
      && forall k :: 0 <= k < |chain| ==> AddressOf(table, chain, states, k) <= AddressOf(table, chain, goal, k)
    decreases Room(table, chain, states0, |chain|)
  {
    var p := PassTo(table, chain, states0, Layout(table, chain, states0), |chain|);
    PassOutcome(table, chain, states0, Layout(table, chain, states0));
    if p.stretched {
      RelaxationIsMinimal(table, chain, p.states, goal);
    } else {
      var addr := Layout(table, chain, p.states);
      ContiguousIsLayout(table, chain, p.states, addr);
      forall k | 0 <= k < |chain|
        ensures AddressOf(table, chain, p.states, k) <= AddressOf(table, chain, goal, k)
      {
        ContiguousPrefix(table, chain, p.states, addr, k + 1);
        DistancesGrow(table, chain, p.states, addr, goal, 0, k);
      }
    }
  }

  lemma ContiguousPrefix(table: RelaxTable, chain: seq<Shape>, states: seq<nat>, addr: seq<int>, n: nat)
    requires ValidStates(table, chain, states) && n <= |addr| == |chain|
    requires Contiguous(table, chain, states, addr, |chain|)
    ensures Contiguous(table, chain, states, addr, n)
  {
  }

  /** Relaxing a relaxed section changes nothing. */
  lemma RelaxationIsIdempotent(table: RelaxTable, chain: seq<Shape>, states0: seq<nat>)
    requires ValidTable(table) && ValidChain(chain) && ValidStates(table, chain, states0)
    ensures var states := RelaxedStates(table, chain, states0);
      RelaxedStates(table, chain, states) == states
  {
    RelaxationIsSound(table, chain, states0);
    RelaxationIsSound(table, chain, RelaxedStates(table, chain, states0));
  }

  /** The do-while loop of relax_section. */
  method RelaxToFixpoint(table: RelaxTable, frags: seq<Frag>, ghost states0: seq<nat>)
    requires ValidTable(table) && Distinct(frags) && ValidChain(Chain(frags))
    requires ValidStates(table, Chain(frags), states0)
    requires Holds(frags, states0, Layout(table, Chain(frags), states0))
    modifies frags`address, frags`subtype
    ensures var states := RelaxedStates(table, Chain(frags), states0);
      Holds(frags, states, Layout(table, Chain(frags), states))
  {
    ghost var chain := Chain(frags);
    ghost var states := states0;
    var stretched := true;
    while stretched
      invariant ValidStates(table, chain, states) && Holds(frags, states, Layout(table, chain, states))
      invariant RelaxedStates(table, chain, states0) == if stretched then RelaxedStates(table, chain, states) else states
      decreases Room(table, chain, states, |chain|), stretched
    {
      ghost var addr := Layout(table, chain, states);
      ContiguousIsLayout(table, chain, states, addr);
      PassOutcome(table, chain, states, addr);
      stretched := RelaxPass(table, frags, states, addr);
      states := PassTo(table, chain, states, addr, |chain|).states;
    }
  }

  /** The addresses remembered from the round before. */
  ghost predicate Remembers(frags: seq<Frag>, last: seq<int>)
    reads frags
  {
    |last| == |frags| && forall k :: 0 <= k < |frags| ==> frags[k].lastAddress == last[k]
  }

  /** The last loop of relax_section: remember the addresses, and say whether any is new. */
  method RememberAddresses(frags: seq<Frag>, ghost states: seq<nat>, ghost addr: seq<int>, ghost last: seq<int>)
    returns (changed: bool)
    requires Distinct(frags) && Holds(frags, states, addr) && Remembers(frags, last)
    modifies frags`lastAddress
    ensures Holds(frags, states, addr) && Remembers(frags, addr)
    ensures changed <==> addr != last
  {
    changed := false;
    for i := 0 to |frags|
      invariant Holds(frags, states, addr)
      invariant forall k :: 0 <= k < i ==> frags[k].lastAddress == addr[k]
      invariant forall k :: i <= k < |frags| ==> frags[k].lastAddress == last[k]
      invariant changed <==> exists k :: 0 <= k < i && addr[k] != last[k]
    {
      if frags[i].lastAddress != frags[i].address {
        frags[i].lastAddress := frags[i].address;
        changed := true;
      }
    }
  }

  /** relax_section: lay the section out from zero and relax it; has any address changed? */
  method RelaxSection(table: RelaxTable, section: Section, ghost states0: seq<nat>, ghost last: seq<int>)
    returns (changed: bool)
    requires ValidTable(table) && Distinct(section.frags) && ValidChain(Chain(section.frags))
    requires ValidStates(table, Chain(section.frags), states0)
    requires Subtypes(section.frags, states0) && Remembers(section.frags, last)
    modifies section`align, section.frags`address, section.frags`subtype, section.frags`lastAddress
    ensures var chain := Chain(section.frags);
      var states := RelaxedStates(table, chain, states0);
      var addr := Layout(table, chain, states);
      && Holds(section.frags, states, addr) && Remembers(section.frags, addr) && (changed <==> addr != last)
      && section.align == RaisedAlign(chain, Layout(table, chain, states0), old(section.align), |chain|)
  {
    hide RelaxedStates, Layout, RaisedAlign;
    ghost var chain := Chain(section.frags);
    ghost var states := RelaxedStates(table, chain, states0);
    ghost var addr := Layout(table, chain, states0);
    ContiguousIsLayout(table, chain, states0, addr);
    FirstGuess(table, section, states0, addr);
    RelaxToFixpoint(table, section.frags, states0);
    changed := RememberAddresses(section.frags, states, Layout(table, chain, states), last);
  }
}
