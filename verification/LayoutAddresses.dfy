/** layout_addresses of cctools/as/layout.c as a whole: relaxing the sections in three passes and sliding them apart. */
module LayoutAddresses {
  import opened Arith
  import opened Layout
  import opened Relax
  import opened Wrappers

  // ---------------------------------------------------------------- choosing the sections of a pass

  /** Is the section relaxed in this pass? Zero-fill sections never are. */
  predicate IsIn(section: Section, passOf: nat, pass: nat) {
    passOf == pass && !section.zerofill
  }

  /** The numbers of the sections that are relaxed in a pass, in their order. */
  ghost predicate AreIn(sections: seq<Section>, passes: seq<nat>, pass: nat, chosen: seq<nat>)
    requires |passes| == |sections|
  {
    && (forall i :: 0 <= i < |chosen| ==> chosen[i] < |sections| && IsIn(sections[chosen[i]], passes[chosen[i]], pass))
    && (forall i, j :: 0 <= i < j < |chosen| ==> chosen[i] < chosen[j])
    && (forall s :: 0 <= s < |sections| && IsIn(sections[s], passes[s], pass) ==> s in chosen)
  }

  method Choose(sections: seq<Section>, passes: seq<nat>, pass: nat) returns (chosen: seq<nat>)
    requires |passes| == |sections|
    ensures AreIn(sections, passes, pass, chosen)
  {
    chosen := [];
    for s := 0 to |sections|
      invariant forall i :: 0 <= i < |chosen| ==> chosen[i] < s && IsIn(sections[chosen[i]], passes[chosen[i]], pass)
      invariant forall i, j :: 0 <= i < j < |chosen| ==> chosen[i] < chosen[j]
      invariant forall t :: 0 <= t < s && IsIn(sections[t], passes[t], pass) ==> t in chosen
    {
      if IsIn(sections[s], passes[s], pass) {
        chosen := chosen + [s];
      }
    }
  }

  /** The elements with these numbers. */
  function Pick<T>(all: seq<T>, chosen: seq<nat>): (picked: seq<T>)
    requires forall i :: 0 <= i < |chosen| ==> chosen[i] < |all|
    ensures |picked| == |chosen| && forall i :: 0 <= i < |chosen| ==> picked[i] == all[chosen[i]]
  {
    seq(|chosen|, i requires 0 <= i < |chosen| => all[chosen[i]])
  }

  lemma PickedAreSeparate(table: RelaxTable, sections: seq<Section>, passes: seq<nat>, pass: nat, chosen: seq<nat>,
                          states: seq<seq<nat>>)
    requires |passes| == |sections| == |states| && AreIn(sections, passes, pass, chosen) && Separate(sections)
    requires ValidTable(table)
    requires forall s :: 0 <= s < |sections| && !sections[s].zerofill ==>
      ValidChain(Chain(sections[s].frags)) && ValidStates(table, Chain(sections[s].frags), states[s])
    ensures ValidSections(table, Pick(sections, chosen), Pick(states, chosen))
  {
    hide Chain, ValidChain, ValidStates, Distinct, FragSet;
    forall i, j | 0 <= i < |chosen| && 0 <= j < |chosen| && i != j
      ensures sections[chosen[i]] != sections[chosen[j]]
      ensures FragSet(sections[chosen[i]].frags) !! FragSet(sections[chosen[j]].frags)
    {
      assert chosen[i] != chosen[j];
    }
  }

  // ---------------------------------------------------------------- the passes

  /** What relaxing will leave: the states of each section, and its addresses from zero. Zero-fill sections keep theirs. */
  datatype Plan = Plan(states0: seq<seq<nat>>, before: seq<seq<int>>, states: seq<seq<nat>>, addrs: seq<seq<int>>)

  ghost predicate IsPlan(table: RelaxTable, sections: seq<Section>, plan: Plan) {
    && ValidTable(table) && Separate(sections)
    && |plan.states0| == |plan.before| == |plan.states| == |plan.addrs| == |sections|
    && forall s :: 0 <= s < |sections| ==> IsPlanFor(table, sections[s], plan, s)
  }

  ghost predicate IsPlanFor(table: RelaxTable, section: Section, plan: Plan, s: nat)
    requires ValidTable(table) && s < |plan.states0| == |plan.before| == |plan.states| == |plan.addrs|
  {
    if section.zerofill then plan.addrs[s] == plan.before[s]
    else
      && ValidChain(Chain(section.frags)) && ValidStates(table, Chain(section.frags), plan.states0[s])
      && plan.states[s] == RelaxedStates(table, Chain(section.frags), plan.states0[s])
      && plan.addrs[s] == Relax.Layout(table, Chain(section.frags), plan.states[s])
  }

  /** A section before its pass, and after it. */
  ghost predicate IsAt(section: Section, plan: Plan, s: nat, done: bool)
    requires s < |plan.states0| == |plan.before| == |plan.states| == |plan.addrs|
    reads section, section.frags
  {
    if section.zerofill then At(section.frags, plan.before[s])
    else if done then Stood(section, plan.states[s], plan.addrs[s]) && |plan.addrs[s]| == |section.frags| && Recorded(section, plan.addrs[s])
    else Stands(section, plan.states0[s], plan.before[s])
  }

  /** Nothing has been laid out yet. */
  ghost predicate Fresh(sections: seq<Section>, plan: Plan)
    requires |plan.before| == |sections|
  {
    forall s, k :: 0 <= s < |sections| && !sections[s].zerofill && 0 <= k < |plan.before[s]| ==> plan.before[s][k] == 0
  }

  lemma PlanOfPass(table: RelaxTable, sections: seq<Section>, passes: seq<nat>, pass: nat, chosen: seq<nat>, plan: Plan)
    requires IsPlan(table, sections, plan) && |passes| == |sections| && AreIn(sections, passes, pass, chosen)
    ensures var picked := Pick(sections, chosen);
      && ValidSections(table, picked, Pick(plan.states0, chosen))
      && RoundStates(table, picked, Pick(plan.states0, chosen)) == Pick(plan.states, chosen)
      && Layouts(table, picked, Pick(plan.states, chosen)) == Pick(plan.addrs, chosen)
  {
    hide Chain, ValidChain, ValidStates, RelaxedStates, Relax.Layout, Separate, Distinct, FragSet;
    forall s | 0 <= s < |sections| && !sections[s].zerofill
      ensures ValidChain(Chain(sections[s].frags)) && ValidStates(table, Chain(sections[s].frags), plan.states0[s])
    {
      assert IsPlanFor(table, sections[s], plan, s);
    }
    PickedAreSeparate(table, sections, passes, pass, chosen, plan.states0);
    var picked := Pick(sections, chosen);
    forall i | 0 <= i < |chosen|
      ensures RoundStates(table, picked, Pick(plan.states0, chosen))[i] == plan.states[chosen[i]]
      ensures plan.addrs[chosen[i]] == Relax.Layout(table, Chain(picked[i].frags), plan.states[chosen[i]])
    {
      assert IsPlanFor(table, sections[chosen[i]], plan, chosen[i]);
    }
    assert RoundStates(table, picked, Pick(plan.states0, chosen)) == Pick(plan.states, chosen);
  }

  /** The do-while loop of one pass, which leaves the sections of the other passes alone. */
  method LayPass(table: RelaxTable, sections: seq<Section>, passes: seq<nat>, pass: nat, ghost plan: Plan)
    requires IsPlan(table, sections, plan) && Fresh(sections, plan) && |passes| == |sections|
    requires forall s :: 0 <= s < |sections| ==> IsAt(sections[s], plan, s, passes[s] < pass)
    modifies AllSections(sections), AllFrags(sections)
    ensures forall s :: 0 <= s < |sections| ==> IsAt(sections[s], plan, s, passes[s] <= pass)
    ensures forall s :: 0 <= s < |sections| ==> RaisedFrom(sections[s], old(sections[s].align))
  {
    hide RelaxedStates, Relax.Layout, RaisedAlign, Chain, ValidChain, ValidStates, Distinct, RoundStates, Layouts;
    hide Stands, Stood, Recorded, At;
    var chosen := Choose(sections, passes, pass);
    var picked := Pick(sections, chosen);
    ghost var states0, zeros := Pick(plan.states0, chosen), Pick(plan.before, chosen);
    PlanOfPass(table, sections, passes, pass, chosen, plan);
    assert AllZero(zeros);
    forall i | 0 <= i < |picked| ensures Stands(picked[i], states0[i], zeros[i]) {
      assert IsAt(sections[chosen[i]], plan, chosen[i], passes[chosen[i]] < pass);
    }
    PickedFrames(sections, chosen);
    ghost var rounds := RelaxUntilQuiet(table, picked, states0, zeros);
    forall s | 0 <= s < |sections|
      ensures IsAt(sections[s], plan, s, passes[s] <= pass) && RaisedFrom(sections[s], old(sections[s].align))
    {
      if IsIn(sections[s], passes[s], pass) {
        var i :| 0 <= i < |chosen| && chosen[i] == s;
        assert Stood(picked[i], Pick(plan.states, chosen)[i], Pick(plan.addrs, chosen)[i]);
      } else {
        assert old(IsAt(sections[s], plan, s, passes[s] < pass));
        Untouched(sections, chosen, s);
      }
    }
  }

  lemma PickedFrames(sections: seq<Section>, chosen: seq<nat>)
    requires forall i :: 0 <= i < |chosen| ==> chosen[i] < |sections|
    ensures AllSections(Pick(sections, chosen)) <= AllSections(sections)
    ensures AllFrags(Pick(sections, chosen)) <= AllFrags(sections)
  {
    hide FragSet;
    var picked := Pick(sections, chosen);
    forall f | f in AllFrags(picked) ensures f in AllFrags(sections) {
      var i :| 0 <= i < |picked| && f in FragSet(picked[i].frags);
      assert f in FragSet(sections[chosen[i]].frags);
    }
  }

  lemma Untouched(sections: seq<Section>, chosen: seq<nat>, s: nat)
    requires Separate(sections) && s < |sections| && s !in chosen
    requires forall i :: 0 <= i < |chosen| ==> chosen[i] < |sections|
    ensures sections[s] !in AllSections(Pick(sections, chosen))
    ensures FragSet(sections[s].frags) !! AllFrags(Pick(sections, chosen))
  {
    hide FragSet, Distinct;
    var picked := Pick(sections, chosen);
    forall i | 0 <= i < |chosen|
      ensures sections[s] != sections[chosen[i]] && FragSet(sections[s].frags) !! FragSet(sections[chosen[i]].frags)
    {
      assert chosen[i] != s;
    }
  }

  // ---------------------------------------------------------------- the whole

  /** An ordinary section as it ends up: in the given states, its frags at their addresses from zero, moved to its start. */
  ghost predicate IsLaidOut(section: Section, states: seq<nat>, addr: seq<int>, start: nat)
    reads section, section.frags
  {
    && |states| == |addr| == |section.frags| && Recorded(section, addr)
    && forall k :: 0 <= k < |addr| ==> section.frags[k].subtype == states[k] && section.frags[k].address == addr[k] + start
  }

  /** A zero-fill section as it ends up: its first frag at its start and its last one at its end. */
  ghost predicate IsPlaced(section: Section, size: int, start: nat)
    reads section.frags
  {
    && |section.frags| >= 2
    && section.frags[0].address == start && section.frags[|section.frags|-1].address == start + size
  }

  /** A root frag and the empty frag that marks the end; a zero-fill section's size is held by its root. */
  ghost predicate HasEnds(section: Section, before: seq<int>)
  {
    |before| == |section.frags| >= 2 && (section.zerofill ==> before[0] >= 0 && before[|before|-1] >= 0)
  }

  /** The sections' sizes and alignments once they have been relaxed. */
  ghost function ExtentsOf(sections: seq<Section>, plan: Plan): (extents: seq<Extent>)
    requires |plan.addrs| == |sections|
    requires forall s :: 0 <= s < |sections| ==>
      |sections[s].frags| == |plan.addrs[s]| >= 2 && plan.addrs[s][0] >= 0 && plan.addrs[s][|plan.addrs[s]|-1] >= 0
    reads AllSections(sections)
    ensures Extents(sections, plan.addrs, extents)
    ensures forall s :: 0 <= s < |sections| ==> sections[s] in AllSections(sections) && extents[s] == ExtentOf(sections[s], plan.addrs[s])
  {
    assert forall s :: 0 <= s < |sections| ==> sections[s] in AllSections(sections);
    seq(|sections|, s requires 0 <= s < |sections| && sections[s] in AllSections(sections)
                      && |sections[s].frags| == |plan.addrs[s]| >= 2 && plan.addrs[s][0] >= 0 && plan.addrs[s][|plan.addrs[s]|-1] >= 0
                    reads AllSections(sections) => ExtentOf(sections[s], plan.addrs[s]))
  }

  lemma AddressesAreNatural(table: RelaxTable, sections: seq<Section>, plan: Plan, s: nat)
    requires IsPlan(table, sections, plan) && s < |sections| && HasEnds(sections[s], plan.before[s])
    ensures |sections[s].frags| == |plan.addrs[s]| >= 2 && plan.addrs[s][0] >= 0 && plan.addrs[s][|plan.addrs[s]|-1] >= 0
  {
    hide RelaxedStates, AddressOf, ValidChain, ValidStates;
    assert IsPlanFor(table, sections[s], plan, s);
  }

  /** A section as layout_addresses leaves it, starting where its extent says. */
  ghost predicate IsFinal(section: Section, plan: Plan, s: nat, extent: Extent, start: nat)
    requires s < |plan.states0| == |plan.before| == |plan.states| == |plan.addrs|
    reads section, section.frags
  {
    && |plan.before[s]| >= 2 && |plan.addrs[s]| >= 2
    && extent.align == section.align && extent.zerofill == section.zerofill
    && if section.zerofill then
         extent.size == plan.before[s][0] && IsPlaced(section, plan.before[s][0], start)
       else
         extent.size == plan.addrs[s][|plan.addrs[s]|-1] && IsLaidOut(section, plan.states[s], plan.addrs[s], start)
  }

  lemma ReadyToSlide(table: RelaxTable, sections: seq<Section>, plan: Plan, s: nat)
    requires IsPlan(table, sections, plan) && s < |sections|
    requires IsAt(sections[s], plan, s, true) && HasEnds(sections[s], plan.before[s])
    ensures |sections[s].frags| == |plan.addrs[s]| >= 2 && plan.addrs[s][0] >= 0 && plan.addrs[s][|plan.addrs[s]|-1] >= 0
    ensures At(sections[s].frags, plan.addrs[s]) && Keeps(sections[s], plan, s)
  {
    hide RelaxedStates, Relax.Layout, Chain, ValidChain, ValidStates, Distinct, Recorded, FragSet;
    AddressesAreNatural(table, sections, plan, s);
    assert IsPlanFor(table, sections[s], plan, s);
  }

  /** What sliding does not touch. */
  ghost predicate Keeps(section: Section, plan: Plan, s: nat)
    requires s < |plan.states0| == |plan.before| == |plan.states| == |plan.addrs|
    reads section, section.frags
  {
    !section.zerofill ==>
      |plan.addrs[s]| == |section.frags| && Subtypes(section.frags, plan.states[s]) && Recorded(section, plan.addrs[s])
  }

  method SlideKeeping(sections: seq<Section>, ghost plan: Plan, ghost extents: seq<Extent>)
    requires |plan.states0| == |plan.before| == |plan.states| == |plan.addrs| == |sections|
    requires Separate(sections) && Extents(sections, plan.addrs, extents)
    requires forall s :: 0 <= s < |sections| ==> At(sections[s].frags, plan.addrs[s]) && Keeps(sections[s], plan, s)
    modifies AllFrags(sections)`address
    ensures forall s :: 0 <= s < |sections| ==>
      At(sections[s].frags, Slid(extents[s], plan.addrs[s], StartOf(extents, s))) && Keeps(sections[s], plan, s)
  {
    hide At, Slid, StartOf, FragSet, Distinct, ExtentOf, Separate, Extents, Recorded;
    SlideSections(sections, plan.addrs, extents);
    forall s | 0 <= s < |sections| ensures Keeps(sections[s], plan, s) {
      assert old(Keeps(sections[s], plan, s));
    }
  }

  lemma SlidIsFinal(table: RelaxTable, sections: seq<Section>, plan: Plan, s: nat, extent: Extent, start: nat)
    requires IsPlan(table, sections, plan) && s < |sections| && HasEnds(sections[s], plan.before[s])
    requires |sections[s].frags| == |plan.addrs[s]| >= 2 && plan.addrs[s][0] >= 0 && plan.addrs[s][|plan.addrs[s]|-1] >= 0
    requires extent == ExtentOf(sections[s], plan.addrs[s]) && Keeps(sections[s], plan, s)
    requires At(sections[s].frags, Slid(extent, plan.addrs[s], start))
    ensures IsFinal(sections[s], plan, s, extent, start)
  {
    hide RelaxedStates, Relax.Layout, Chain, ValidChain, ValidStates, Distinct, Recorded, FragSet, At, Slid, IsPlaced, IsLaidOut;
    assert IsPlanFor(table, sections[s], plan, s);
    if sections[s].zerofill {
      SlidZerofill(sections[s], plan.addrs[s], extent, start);
    } else {
      SlidOrdinary(sections[s], plan.states[s], plan.addrs[s], extent, start);
    }
  }

  lemma SlidOrdinary(section: Section, states: seq<nat>, addr: seq<int>, extent: Extent, start: nat)
    requires |section.frags| == |addr| >= 2 && !extent.zerofill
    requires Subtypes(section.frags, states) && Recorded(section, addr) && At(section.frags, Slid(extent, addr, start))
    ensures IsLaidOut(section, states, addr, start)
  {
    hide Chain, Applied;
  }

  lemma SlidZerofill(section: Section, addr: seq<int>, extent: Extent, start: nat)
    requires |section.frags| == |addr| >= 2 && extent.zerofill && extent.size == addr[0]
    requires At(section.frags, Slid(extent, addr, start))
    ensures IsPlaced(section, addr[0], start)
  {
  }

  /** The slide loops, after relaxing. */
  method SlideApart(table: RelaxTable, sections: seq<Section>, ghost plan: Plan) returns (ghost extents: seq<Extent>)
    requires IsPlan(table, sections, plan)
    requires forall s :: 0 <= s < |sections| ==> IsAt(sections[s], plan, s, true) && HasEnds(sections[s], plan.before[s])
    modifies AllFrags(sections)`address
    ensures |extents| == |sections|
    ensures forall s :: 0 <= s < |sections| ==> IsFinal(sections[s], plan, s, extents[s], StartOf(extents, s))
  {
    hide IsPlanFor, StartOf, At, Slid, IsLaidOut, IsFinal, Keeps, Extents, ExtentOf, Separate, IsAt, HasEnds, AllFrags;
    forall s | 0 <= s < |sections|
      ensures |sections[s].frags| == |plan.addrs[s]| >= 2 && plan.addrs[s][0] >= 0 && plan.addrs[s][|plan.addrs[s]|-1] >= 0
      ensures At(sections[s].frags, plan.addrs[s]) && Keeps(sections[s], plan, s)
    {
      ReadyToSlide(table, sections, plan, s);
    }
    extents := ExtentsOf(sections, plan);
    SlideKeeping(sections, plan, extents);
    forall s | 0 <= s < |sections|
      ensures IsFinal(sections[s], plan, s, extents[s], StartOf(extents, s))
    {
      SlidIsFinal(table, sections, plan, s, extents[s], StartOf(extents, s));
    }
  }

  // ---------------------------------------------------------------- what the addresses promise

  lemma LaidOutAt(section: Section, states: seq<nat>, addr: seq<int>, start: nat, k: nat)
    requires IsLaidOut(section, states, addr, start) && k < |section.frags|
    ensures |addr| == |states| == |section.frags| && Recorded(section, addr)
    ensures section.frags[k].subtype == states[k] && section.frags[k].address == addr[k] + start
  {
    hide Recorded;
  }

  lemma NextAddress(table: RelaxTable, chain: seq<Shape>, states: seq<nat>, k: nat)
    requires ValidStates(table, chain, states) && k + 1 < |chain|
    ensures chain[k].tail.Branch? ==> states[k] < |table|
    ensures var addr := Relax.Layout(table, chain, states);
      addr[k + 1] == addr[k] + chain[k].fix + TailSize(table, chain[k], addr[k], states[k])
  {
    hide TailSize;
  }

  /** Every frag of a laid-out section follows the one before it, after its fixed and its variable part; so the gap that
      an align frag is asked to fill is the padding it was given, and never negative. */
  lemma FragsFollow(table: RelaxTable, section: Section, states: seq<nat>, addr: seq<int>, start: nat, k: nat)
    requires ValidTable(table) && ValidStates(table, Chain(section.frags), states)
    requires addr == Relax.Layout(table, Chain(section.frags), states) && IsLaidOut(section, states, addr, start)
    requires k + 1 < |section.frags|
    ensures var frag, next := section.frags[k], section.frags[k + 1];
      && (frag.tail.Branch? ==> frag.subtype < |table|)
      && next.address == frag.address + frag.fix + TailSize(table, Chain(section.frags)[k], addr[k], frag.subtype)
      && (frag.tail.Align? ==>
            next.address - frag.address - frag.fix == Padding(addr[k] + frag.fix, frag.tail.power, frag.tail.limit))
  {
    hide Recorded, Padding, IsLaidOut, ValidStates, Relax.Layout;
    NextAddress(table, Chain(section.frags), states, k);
    LaidOutAt(section, states, addr, start, k);
    LaidOutAt(section, states, addr, start, k + 1);
  }

  /** An align frag that is not too long for its limit ends on a multiple of its power of two. */
  lemma AlignsKept(table: RelaxTable, section: Section, states: seq<nat>, addr: seq<int>, start: nat, k: nat)
    requires ValidTable(table) && ValidStates(table, Chain(section.frags), states)
    requires addr == Relax.Layout(table, Chain(section.frags), states) && IsLaidOut(section, states, addr, start)
    requires k + 1 < |section.frags| && Applied(Chain(section.frags)[k], addr[k])
    requires section.frags[k].tail.limit == 0 ==> section.frags[k].tail.power <= section.align
    requires start % Pow2(section.align) == 0
    ensures section.frags[k + 1].address % Pow2(section.frags[k].tail.power) == 0
  {
    hide Recorded, Pow2, IsLaidOut, ValidStates, Relax.Layout, Applied;
    LaidOutAt(section, states, addr, start, k + 1);
    AlignsSurviveTheSlide(table, section, states, addr, k, start);
  }

  /** A branch to a symbol of its section reaches it from where the frag has ended up, or is as long as it gets. */
  lemma BranchesReach(table: RelaxTable, section: Section, states: seq<nat>, addr: seq<int>, start: nat, k: nat)
    requires Settled(table, Chain(section.frags), states)
    requires addr == Relax.Layout(table, Chain(section.frags), states) && IsLaidOut(section, states, addr, start)
    requires k < |section.frags| && section.frags[k].tail.Branch?
    requires section.frags[k].tail.symbol.Some? && section.frags[k].tail.symbol.value.home.Here?
    ensures section.frags[k].tail.symbol.value.home.index < |section.frags|
    ensures var frag := section.frags[k];
      var target := frag.tail.symbol.value.value + section.frags[frag.tail.symbol.value.home.index].address;
      frag.subtype < |table| && Fits(table, frag.subtype, frag.tail.offset + target - frag.address - frag.fix)
  {
    hide Recorded, Relax.Layout, IsLaidOut;
    var chain := Chain(section.frags);
    LaidOutAt(section, states, addr, start, k);
    LaidOutAt(section, states, addr, start, section.frags[k].tail.symbol.value.home.index);
    assert ValidShape(|chain|, chain[k]) && chain[k].tail == section.frags[k].tail;
    assert Fits(table, states[k], Displacement(chain, addr, k));
  }

  /** The promises to an ordinary section, at the addresses that its frags have ended up at. */
  ghost predicate IsRight(table: RelaxTable, section: Section, states0: seq<nat>)
    reads section, section.frags
  {
    && |states0| == |section.frags|
    && (forall k :: 0 <= k < |section.frags| - 1 ==> FragIsRight(table, section, k))
    && (forall k :: 0 <= k < |section.frags| && section.frags[k].tail.Branch? ==> BranchIsRight(table, section, states0[k], k))
  }

  /** How far it is to the next multiple of a power of two. */
  function ToMultiple(address: int, power: nat): nat {
    -address % Pow2(power)
  }

  /** A frag's tail fills the way to the next frag: a fill is repeated, a branch is as long as its state says, and an align
      pads to a multiple of its power, counted from the start of the section, unless that is beyond its limit. The multiple
      is one in the object file too when the section is aligned as strictly. */
  ghost predicate FragIsRight(table: RelaxTable, section: Section, k: nat)
    requires k + 1 < |section.frags|
    reads section, section.frags
  {
    var start, end, next := section.frags[0].address, section.frags[k].address + section.frags[k].fix, section.frags[k + 1].address;
    match section.frags[k].tail
    case Fill(repeat, size) => next == end + repeat * size
    case Branch(_, _) => section.frags[k].subtype < |table| && next == end + table[section.frags[k].subtype].length
    case Align(power, limit) =>
      if limit != 0 && ToMultiple(end - start, power) > limit then next == end
      else
        && end <= next < end + Pow2(power) && (next - start) % Pow2(power) == 0
        && (limit != 0 || power <= section.align ==> next % Pow2(power) == 0)
  }

  /** A branch is in a state of its chain that reaches its target, or in the last one. The target is in a frag of the section,
      or else an address that is compared with addresses from the start of the section. */
  ghost predicate BranchIsRight(table: RelaxTable, section: Section, state0: nat, k: nat)
    requires k < |section.frags| && section.frags[k].tail.Branch?
    reads section, section.frags
  {
    var frag, start := section.frags[k], section.frags[0].address;
    && ValidTable(table) && state0 < |table| && frag.subtype < |table| && Reaches(table, state0, frag.subtype)
    && match frag.tail.symbol
       case None => IsInReach(table[frag.subtype], frag.tail.offset - (frag.address - start) - frag.fix)
       case Some(Symbol(value, Absolute)) =>
         IsInReach(table[frag.subtype], frag.tail.offset + value - (frag.address - start) - frag.fix)
       case Some(Symbol(value, Here(j))) =>
         && j < |section.frags|
         && IsInReach(table[frag.subtype], frag.tail.offset + value + section.frags[j].address - frag.address - frag.fix)
  }

  predicate IsInReach(state: RelaxType, distance: int) {
    state.more == 0 || state.backward <= distance <= state.forward
  }

  lemma FitsIsInReach(table: RelaxTable, s: nat, aim: int)
    requires ValidTable(table) && s < |table| && Fits(table, s, aim)
    ensures IsInReach(table[s], aim)
  {
    assert ValidEntry(table, s);
  }

  lemma ToMultipleIsPadding(address: int, power: nat)
    ensures RelaxAlign(address, power) == ToMultiple(address, power)
  {
    var r, pad := Pow2(power), RelaxAlign(address, power);
    hide Pow2, RelaxAlign;
    var q := (address + pad) / r;
    assert address + pad == q * r;
    DivModUnique(-address, r, -q, pad);
  }

  lemma AlignIsRight(table: RelaxTable, section: Section, states: seq<nat>, addr: seq<int>, start: nat, k: nat)
    requires ValidTable(table) && ValidStates(table, Chain(section.frags), states)
    requires addr == Relax.Layout(table, Chain(section.frags), states) && IsLaidOut(section, states, addr, start)
    requires k + 1 < |section.frags| && section.frags[k].tail.Align? && section.frags[0].address == start
    requires start % Pow2(section.align) == 0
    ensures FragIsRight(table, section, k)
  {
    hide Recorded, Pow2, RelaxAlign, IsLaidOut, ValidStates, Relax.Layout, ToMultiple;
    var frag, power := section.frags[k], section.frags[k].tail.power;
    FragsFollow(table, section, states, addr, start, k);
    LaidOutAt(section, states, addr, start, k);
    LaidOutAt(section, states, addr, start, k + 1);
    ToMultipleIsPadding(addr[k] + frag.fix, power);
    if Applied(Chain(section.frags)[k], addr[k]) {
      AlignEndsAligned(table, Chain(section.frags), states, k);
      if frag.tail.limit != 0 || power <= section.align {
        AlignsKept(table, section, states, addr, start, k);
      }
    }
  }

  lemma BranchOfSection(table: RelaxTable, section: Section, states0: seq<nat>, states: seq<nat>, addr: seq<int>, start: nat, k: nat)
    requires ValidTable(table) && ValidStates(table, Chain(section.frags), states0)
    requires Settled(table, Chain(section.frags), states) && Above(table, Chain(section.frags), states0, states)
    requires addr == Relax.Layout(table, Chain(section.frags), states) && IsLaidOut(section, states, addr, start)
    requires k < |section.frags| && section.frags[k].tail.Branch? && section.frags[0].address == start
    ensures BranchIsRight(table, section, states0[k], k)
  {
    hide Recorded, Relax.Layout, IsLaidOut, Fits, Reaches;
    var chain := Chain(section.frags);
    LaidOutAt(section, states, addr, start, k);
    assert ValidShape(|chain|, chain[k]) && chain[k].tail == section.frags[k].tail;
    var aim := Displacement(chain, addr, k);
    assert Fits(table, states[k], aim) && Reaches(table, states0[k], states[k]);
    match section.frags[k].tail.symbol
    case None => FitsIsInReach(table, states[k], aim);
    case Some(Symbol(_, Absolute)) => FitsIsInReach(table, states[k], aim);
    case Some(Symbol(value, Here(j))) =>
      var frag := section.frags[k];
      BranchesReach(table, section, states, addr, start, k);
      FitsIsInReach(table, frag.subtype, frag.tail.offset + value + section.frags[j].address - frag.address - frag.fix);
  }

  lemma SectionIsRight(table: RelaxTable, sections: seq<Section>, plan: Plan, s: nat, start: nat)
    requires IsPlan(table, sections, plan) && s < |sections| && !sections[s].zerofill
    requires IsLaidOut(sections[s], plan.states[s], plan.addrs[s], start) && start % Pow2(sections[s].align) == 0
    ensures IsRight(table, sections[s], plan.states0[s])
  {
    hide Pow2, Recorded, TailSize, RelaxAlign, Padding, ValidStates, Relax.Layout, Settled, RelaxedStates, IsLaidOut;
    hide FragIsRight, BranchIsRight, Above;
    var section, states0, states, addr := sections[s], plan.states0[s], plan.states[s], plan.addrs[s];
    var chain := Chain(section.frags);
    assert IsPlanFor(table, section, plan, s);
    RelaxationIsSound(table, chain, states0);
    SettledStates(table, chain, states);
    if section.frags != [] {
      LaidOutAt(section, states, addr, start, 0);
    }
    StatesFit(table, chain, states0);
    forall k | 0 <= k < |section.frags| - 1 ensures FragIsRight(table, section, k) {
      if section.frags[k].tail.Align? {
        AlignIsRight(table, section, states, addr, start, k);
      } else {
        PlainIsRight(table, section, states, addr, start, k);
      }
    }
    forall k | 0 <= k < |section.frags| && section.frags[k].tail.Branch? ensures BranchIsRight(table, section, states0[k], k) {
      BranchOfSection(table, section, states0, states, addr, start, k);
    }
  }

  lemma StatesFit(table: RelaxTable, chain: seq<Shape>, states: seq<nat>)
    requires ValidStates(table, chain, states)
    ensures |states| == |chain|
  {
  }

  lemma PlainIsRight(table: RelaxTable, section: Section, states: seq<nat>, addr: seq<int>, start: nat, k: nat)
    requires ValidTable(table) && ValidStates(table, Chain(section.frags), states)
    requires addr == Relax.Layout(table, Chain(section.frags), states) && IsLaidOut(section, states, addr, start)
    requires k + 1 < |section.frags| && !section.frags[k].tail.Align?
    ensures FragIsRight(table, section, k)
  {
    hide Recorded, IsLaidOut, ValidStates, Relax.Layout;
    FragsFollow(table, section, states, addr, start, k);
  }

  lemma SettledStates(table: RelaxTable, chain: seq<Shape>, states: seq<nat>)
    requires Settled(table, chain, states)
    ensures ValidStates(table, chain, states)
  {
  }

  // ---------------------------------------------------------------- where the sections stand

  /** The addresses of a section's first frag, and of the empty frag that marks its end. */
  function StartAddress(section: Section): int
    requires section.frags != []
    reads section.frags
  {
    section.frags[0].address
  }

  function EndAddress(section: Section): int
    requires section.frags != []
    reads section.frags
  {
    section.frags[|section.frags|-1].address
  }

  /** Ordinary sections are placed in list order, and then the zero-fill ones in theirs. */
  predicate ComesBefore(sections: seq<Section>, r: nat, s: nat)
    requires r < |sections| && s < |sections|
  {
    if sections[r].zerofill == sections[s].zerofill then r < s else sections[s].zerofill
  }

  /** Does everything that is placed before section s end at or before this address? */
  ghost predicate IsBehind(sections: seq<Section>, s: nat, address: nat)
    requires s < |sections| && forall r :: 0 <= r < |sections| ==> sections[r].frags != []
    reads AllFrags(sections)
  {
    forall r :: 0 <= r < |sections| && ComesBefore(sections, r, s) ==>
      FragSet(sections[r].frags) <= AllFrags(sections) && EndAddress(sections[r]) <= address
  }

  /** A section starts at the least multiple of its alignment behind everything that is placed before it. */
  ghost predicate IsPacked(sections: seq<Section>, s: nat)
    requires s < |sections| && forall r :: 0 <= r < |sections| ==> sections[r].frags != []
    reads sections[s], AllFrags(sections)
  {
    && FragSet(sections[s].frags) <= AllFrags(sections)
    && var start := StartAddress(sections[s]);
       && start >= 0 && start % Pow2(sections[s].align) == 0 && IsBehind(sections, s, start)
       && forall other: nat :: other % Pow2(sections[s].align) == 0 && IsBehind(sections, s, other) ==> start <= other
  }

  lemma FinalEnds(section: Section, plan: Plan, s: nat, extent: Extent, start: nat)
    requires s < |plan.states0| == |plan.before| == |plan.states| == |plan.addrs|
    requires IsFinal(section, plan, s, extent, start) && (!section.zerofill ==> plan.addrs[s][0] == 0)
    ensures |section.frags| >= 2 && StartAddress(section) == start && EndAddress(section) == start + extent.size
    ensures extent.align == section.align && extent.zerofill == section.zerofill
  {
    hide Recorded;
  }

  lemma FirstAddress(table: RelaxTable, sections: seq<Section>, plan: Plan, s: nat)
    requires IsPlan(table, sections, plan) && s < |sections| && |plan.addrs[s]| >= 2
    ensures !sections[s].zerofill ==> plan.addrs[s][0] == 0
  {
    hide RelaxedStates, ValidChain, ValidStates, Separate, ValidTable;
    assert IsPlanFor(table, sections[s], plan, s);
  }

  lemma NextMultiple(end: int, start: int, other: int, r: int)
    requires r > 0 && start % r == 0 && other % r == 0 && start < end + r && end <= other
    ensures start <= other
  {
    var p, q := start / r, other / r;
    assert start == p * r && other == q * r;
    if p > q {
      assert (p - q) * r == start - other;
      MulMonotone(1, p - q, r);
    }
  }

  /** Where the ends of all sections are known, packed extents are packed sections. */
  lemma ExtentsArePacked(sections: seq<Section>, extents: seq<Extent>, s: nat)
    requires s < |sections| == |extents|
    requires forall r :: 0 <= r < |sections| ==>
      && sections[r].frags != [] && StartAddress(sections[r]) == StartOf(extents, r)
      && EndAddress(sections[r]) == StartOf(extents, r) + extents[r].size
      && extents[r].align == sections[r].align && extents[r].zerofill == sections[r].zerofill
    ensures IsPacked(sections, s)
  {
    hide Pow2, StartOf, FragSet, AllFrags;
    AllFragsHold(sections);
    SectionsArePacked(extents, s);
    forall r | 0 <= r < |sections| && ComesBefore(sections, r, s)
      ensures EndAddress(sections[r]) <= StartAddress(sections[s])
    {
      SectionsArePartitioned(extents, r, s);
    }
    SectionsArePartitioned(extents, s, s);
    forall other: nat | other % Pow2(sections[s].align) == 0 && IsBehind(sections, s, other)
      ensures StartAddress(sections[s]) <= other
    {
      if exists r :: 0 <= r < |extents| && PlacedBefore(extents, r, s) {
        var r :| 0 <= r < |extents| && PlacedBefore(extents, r, s) && IsNext(extents, r, s);
        assert ComesBefore(sections, r, s);
        NextMultiple(EndAddress(sections[r]), StartAddress(sections[s]), other, Pow2(sections[s].align));
      }
    }
  }

  lemma AllFragsHold(sections: seq<Section>)
    ensures forall r :: 0 <= r < |sections| ==>
      sections[r] in AllSections(sections) && FragSet(sections[r].frags) <= AllFrags(sections)
  {
  }

  /** The main result: in the object file sections are packed as their alignments allow, frags follow each other, applied
      aligns hold, and branches reach. */
  lemma LayoutIsRight(table: RelaxTable, sections: seq<Section>, plan: Plan, extents: seq<Extent>, s: nat)
    requires IsPlan(table, sections, plan) && |extents| == |sections| && s < |sections|
    requires forall r :: 0 <= r < |sections| ==> IsFinal(sections[r], plan, r, extents[r], StartOf(extents, r))
    ensures forall r :: 0 <= r < |sections| ==> |sections[r].frags| >= 2
    ensures IsPacked(sections, s)
    ensures if sections[s].zerofill then |plan.before[s]| >= 2 && EndAddress(sections[s]) == StartAddress(sections[s]) + plan.before[s][0]
            else IsRight(table, sections[s], plan.states0[s])
  {
    hide Pow2, StartOf, Recorded, RelaxedStates, Relax.Layout, Chain, IsRight, IsPacked;
    forall r | 0 <= r < |sections|
      ensures |sections[r].frags| >= 2 && StartAddress(sections[r]) == StartOf(extents, r)
      ensures EndAddress(sections[r]) == StartOf(extents, r) + extents[r].size
      ensures extents[r].align == sections[r].align && extents[r].zerofill == sections[r].zerofill
    {
      assert IsFinal(sections[r], plan, r, extents[r], StartOf(extents, r));
      FirstAddress(table, sections, plan, r);
      FinalEnds(sections[r], plan, r, extents[r], StartOf(extents, r));
    }
    ExtentsArePacked(sections, extents, s);
    SectionsArePartitioned(extents, s, s);
    assert IsFinal(sections[s], plan, s, extents[s], StartOf(extents, s));
    if !sections[s].zerofill {
      SectionIsRight(table, sections, plan, s, StartOf(extents, s));
    }
  }

  /** A section as layout_addresses leaves it. */
  ghost predicate IsSettled(table: RelaxTable, sections: seq<Section>, plan: Plan, s: nat)
    requires |plan.states0| == |plan.before| == |sections| && s < |sections|
    reads AllSections(sections), AllFrags(sections)
  {
    && (forall r :: 0 <= r < |sections| ==> |sections[r].frags| >= 2)
    && sections[s] in AllSections(sections) && FragSet(sections[s].frags) <= AllFrags(sections)
    && IsPacked(sections, s)
    && if sections[s].zerofill then
         |plan.before[s]| >= 2 && EndAddress(sections[s]) == StartAddress(sections[s]) + plan.before[s][0]
       else
         IsRight(table, sections[s], plan.states0[s])
  }

  /** layout_addresses, up to the conversion of the frags: three passes of relaxing, then the slide. */
  method LayoutAddresses(table: RelaxTable, sections: seq<Section>, passes: seq<nat>, ghost plan: Plan)
    returns (ghost extents: seq<Extent>)
    requires IsPlan(table, sections, plan) && Fresh(sections, plan)
    requires |passes| == |sections| && forall s :: 0 <= s < |sections| ==> passes[s] < 3
    requires forall s :: 0 <= s < |sections| ==> IsAt(sections[s], plan, s, false) && HasEnds(sections[s], plan.before[s])
    modifies AllSections(sections), AllFrags(sections)
    ensures |extents| == |sections|
    ensures forall s :: 0 <= s < |sections| ==> IsFinal(sections[s], plan, s, extents[s], StartOf(extents, s))
    ensures forall s :: 0 <= s < |sections| ==> RaisedFrom(sections[s], old(sections[s].align))
    ensures forall s :: 0 <= s < |sections| ==> IsSettled(table, sections, plan, s)
  {
    hide IsPlanFor, Separate, IsAt, HasEnds, AllSections, AllFrags, IsFinal, StartOf, Chain, IsPacked, IsRight;
    for pass := 0 to 3
      invariant forall s :: 0 <= s < |sections| ==> IsAt(sections[s], plan, s, passes[s] < pass)
      invariant forall s :: 0 <= s < |sections| ==> RaisedFrom(sections[s], old(sections[s].align))
    {
      label before:
      LayPass(table, sections, passes, pass, plan);
      forall s | 0 <= s < |sections| ensures RaisedFrom(sections[s], old(sections[s].align)) {
        var was := old(sections[s].align);
        assert old@before(RaisedFrom(sections[s], was));
      }
      assert forall s :: 0 <= s < |sections| ==> (passes[s] <= pass <==> passes[s] < pass + 1);
    }
    assert forall s :: 0 <= s < |sections| ==> IsAt(sections[s], plan, s, passes[s] < 3);
    extents := SlideApart(table, sections, plan);
    forall s | 0 <= s < |sections| ensures IsSettled(table, sections, plan, s) {
      AllFragsHold(sections);
      LayoutIsRight(table, sections, plan, extents, s);
    }
  }
}
