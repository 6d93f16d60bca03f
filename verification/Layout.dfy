/** Placing the relaxed sections in the object file: layout_addresses of cctools/as/layout.c. */
module Layout {
  import opened Arith
  import opened Relax

  // ---------------------------------------------------------------- relaxing until nothing changes

  /** No two sections share a frag, and no frag occurs twice. */
  ghost predicate Separate(sections: seq<Section>) {
    && (forall s :: 0 <= s < |sections| ==> Distinct(sections[s].frags))
    && (forall s, t :: 0 <= s < t < |sections| ==> sections[s] != sections[t])
    && (forall s, t :: 0 <= s < |sections| && 0 <= t < |sections| && s != t ==>
          FragSet(sections[s].frags) !! FragSet(sections[t].frags))
  }

  ghost function FragSet(frags: seq<Frag>): (all: set<Frag>)
    ensures forall k :: 0 <= k < |frags| ==> frags[k] in all
  {
    set f | f in frags
  }

  ghost function AllFrags(sections: seq<Section>): set<Frag> {
    set s, f | 0 <= s < |sections| && f in FragSet(sections[s].frags) :: f
  }

  ghost function AllSections(sections: seq<Section>): set<Section> {
    set s | 0 <= s < |sections| :: sections[s]
  }

  /** If growing ends with every frag at address zero, then nothing grew in front of any frag. */
  lemma {:induction false} ZeroLayout(table: RelaxTable, chain: seq<Shape>, states0: seq<nat>, states: seq<nat>, k: nat)
    requires ValidTable(table) && ValidStates(table, chain, states0) && Above(table, chain, states0, states)
    requires k <= |chain| && AddressOf(table, chain, states, k) == 0
    ensures AddressOf(table, chain, states0, k) == 0
  {
    if k > 0 {
      ZeroLayout(table, chain, states0, states, k - 1);
      if chain[k-1].tail.Branch? {
        ReachesLonger(table, states0[k-1], states[k-1]);
      }
    }
  }

  /** A round that changes no address started from the layout that it ends with. */
  lemma QuietRound(table: RelaxTable, chain: seq<Shape>, states0: seq<nat>, last: seq<int>)
    requires ValidTable(table) && ValidChain(chain) && ValidStates(table, chain, states0)
    requires last == Relax.Layout(table, chain, RelaxedStates(table, chain, states0))
    requires Settled(table, chain, states0) || forall k :: 0 <= k < |chain| ==> last[k] == 0
    ensures Relax.Layout(table, chain, states0) == last
  {
    hide RelaxedStates;
    RelaxationIsSound(table, chain, states0);
    if !Settled(table, chain, states0) {
      forall k | 0 <= k < |chain|
        ensures AddressOf(table, chain, states0, k) == 0
      {
        ZeroLayout(table, chain, states0, RelaxedStates(table, chain, states0), k);
      }
    }
  }

  ghost predicate ValidSections(table: RelaxTable, sections: seq<Section>, states: seq<seq<nat>>) {
    && ValidTable(table) && Separate(sections) && |states| == |sections|
    && forall s :: 0 <= s < |sections| ==>
      ValidChain(Chain(sections[s].frags)) && ValidStates(table, Chain(sections[s].frags), states[s])
  }

  /** A section in the given states, whose frags remember the given addresses. */
  ghost predicate Stands(section: Section, states: seq<nat>, last: seq<int>)
    reads section.frags
  {
    Subtypes(section.frags, states) && Remembers(section.frags, last)
  }

  /** A section as a round leaves it. */
  ghost predicate Stood(section: Section, states: seq<nat>, addr: seq<int>)
    reads section.frags
  {
    Holds(section.frags, states, addr) && Remembers(section.frags, addr)
  }

  /** What a section is left with, and what one that has not been visited yet still has. */
  ghost predicate InRound(section: Section, visited: bool, states0: seq<nat>, last: seq<int>, states: seq<nat>, addr: seq<int>)
    reads section.frags
  {
    if visited then Stood(section, states, addr) else Stands(section, states0, last)
  }

  /** Relaxing one section leaves the others alone. */
  method RelaxNth(table: RelaxTable, sections: seq<Section>, s: nat,
                  ghost states0: seq<seq<nat>>, ghost last: seq<seq<int>>, ghost states: seq<seq<nat>>, ghost addrs: seq<seq<int>>)
    returns (changed: bool)
    requires ValidSections(table, sections, states0) && s < |sections|
    requires |last| == |states| == |addrs| == |sections|
    requires states[s] == RelaxedStates(table, Chain(sections[s].frags), states0[s])
    requires addrs[s] == Relax.Layout(table, Chain(sections[s].frags), states[s])
    requires forall t :: 0 <= t < |sections| ==> InRound(sections[t], t < s, states0[t], last[t], states[t], addrs[t])
    modifies sections[s]
    modifies FragSet(sections[s].frags)
    ensures forall t :: 0 <= t < |sections| ==> InRound(sections[t], t <= s, states0[t], last[t], states[t], addrs[t])
    ensures changed <==> addrs[s] != last[s]
    ensures forall t :: 0 <= t < |sections| && t != s ==> sections[t].align == old(sections[t].align)
    ensures var chain := Chain(sections[s].frags);
      sections[s].align == RaisedAlign(chain, Relax.Layout(table, chain, states0[s]), old(sections[s].align), |chain|)
  {
    hide RelaxedStates, Relax.Layout, RaisedAlign;
    var section := sections[s];
    assert InRound(section, s < s, states0[s], last[s], states[s], addrs[s]);
    changed := RelaxSection(table, section, states0[s], last[s]);
    forall t | 0 <= t < |sections| && t != s
      ensures InRound(sections[t], t <= s, states0[t], last[t], states[t], addrs[t])
    {
      assert old(InRound(sections[t], t < s, states0[t], last[t], states[t], addrs[t]));
      assert sections[t] != section;
      assert FragSet(sections[t].frags) !! FragSet(section.frags);
    }
  }

  /** What one round does to the states of a section. */
  ghost function RoundStates(table: RelaxTable, sections: seq<Section>, states: seq<seq<nat>>): (after: seq<seq<nat>>)
    requires ValidSections(table, sections, states)
    ensures ValidSections(table, sections, after)
    ensures forall s :: 0 <= s < |sections| ==> after[s] == RelaxedStates(table, Chain(sections[s].frags), states[s])
  {
    seq(|sections|, s requires 0 <= s < |sections| => RelaxedStates(table, Chain(sections[s].frags), states[s]))
  }

  /** The addresses of all sections, each laid out from zero. */
  ghost function Layouts(table: RelaxTable, sections: seq<Section>, states: seq<seq<nat>>): (addrs: seq<seq<int>>)
    requires ValidSections(table, sections, states)
    ensures |addrs| == |sections|
    ensures forall s :: 0 <= s < |sections| ==> addrs[s] == Relax.Layout(table, Chain(sections[s].frags), states[s])
  {
    seq(|sections|, s requires 0 <= s < |sections| => Relax.Layout(table, Chain(sections[s].frags), states[s]))
  }

  /** One round of the outer loop: relax every section, and say whether any address is new. */
  method RelaxRound(table: RelaxTable, sections: seq<Section>, ghost states0: seq<seq<nat>>, ghost last: seq<seq<int>>)
    returns (changed: bool)
    requires ValidSections(table, sections, states0) && |last| == |sections|
    requires forall s :: 0 <= s < |sections| ==> Stands(sections[s], states0[s], last[s])
    modifies AllSections(sections), AllFrags(sections)
    ensures var states := RoundStates(table, sections, states0);
      var addrs := Layouts(table, sections, states);
      && (forall s :: 0 <= s < |sections| ==> Stood(sections[s], states[s], addrs[s]))
      && (changed <==> addrs != last)
    ensures forall s :: 0 <= s < |sections| ==>
      var chain := Chain(sections[s].frags);
      sections[s].align == RaisedAlign(chain, Layouts(table, sections, states0)[s], old(sections[s].align), |chain|)
  {
    hide RelaxedStates, Relax.Layout, RaisedAlign, Layouts, RoundStates;
    hide Stands, Stood, Chain, ValidChain, ValidStates, Distinct, FragSet;
    ghost var states := RoundStates(table, sections, states0);
    ghost var addrs0, addrs := Layouts(table, sections, states0), Layouts(table, sections, states);
    changed := false;
    for s := 0 to |sections|
      invariant forall t :: 0 <= t < |sections| ==> InRound(sections[t], t < s, states0[t], last[t], states[t], addrs[t])
      invariant changed <==> exists t :: 0 <= t < s && addrs[t] != last[t]
      invariant forall t :: 0 <= t < s ==>
        var chain := Chain(sections[t].frags);
        sections[t].align == RaisedAlign(chain, addrs0[t], old(sections[t].align), |chain|)
      invariant forall t :: s <= t < |sections| ==> sections[t].align == old(sections[t].align)
    {
      assert sections[s] in AllSections(sections) && FragSet(sections[s].frags) <= AllFrags(sections);
      var differs := RelaxNth(table, sections, s, states0, last, states, addrs);
      changed := changed || differs;
    }
    assert forall s :: 0 <= s < |sections| ==> InRound(sections[s], s < |sections|, states0[s], last[s], states[s], addrs[s]);
  }

  /** The section is aligned at least as strictly as every limited align that its addresses apply. */
  ghost predicate Recorded(section: Section, addr: seq<int>)
    requires |addr| == |section.frags|
    reads section
  {
    var chain := Chain(section.frags);
    forall k :: 0 <= k < |chain| && Applied(chain[k], addr[k]) && chain[k].tail.limit != 0 ==>
      chain[k].tail.power <= section.align
  }

  /** The section's alignment is the one it had before, or one that a limited align of its own has raised it to. */
  ghost predicate RaisedFrom(section: Section, before: nat)
    reads section
  {
    && section.align >= before
    && (section.align == before || exists k :: 0 <= k < |section.frags| && IsLimitedAlign(Chain(section.frags)[k], section.align))
  }

  ghost predicate AllZero(addrs: seq<seq<int>>) {
    forall s, k :: 0 <= s < |addrs| && 0 <= k < |addrs[s]| ==> addrs[s][k] == 0
  }

  /** A round after the first finds everything settled, and so changes nothing. */
  lemma SecondRound(table: RelaxTable, sections: seq<Section>, states0: seq<seq<nat>>)
    requires ValidSections(table, sections, states0)
    ensures var states := RoundStates(table, sections, states0);
      RoundStates(table, sections, states) == states
  {
    hide RelaxedStates;
    forall s | 0 <= s < |sections|
      ensures RelaxedStates(table, Chain(sections[s].frags), RelaxedStates(table, Chain(sections[s].frags), states0[s]))
           == RelaxedStates(table, Chain(sections[s].frags), states0[s])
    {
      RelaxationIsIdempotent(table, Chain(sections[s].frags), states0[s]);
    }
  }

  /** A round that changes no address has seen, from its first guess on, the addresses it ends with. */
  lemma QuietRounds(table: RelaxTable, sections: seq<Section>, states: seq<seq<nat>>, last: seq<seq<int>>)
    requires ValidSections(table, sections, states)
    requires last == Layouts(table, sections, RoundStates(table, sections, states))
    requires AllZero(last) || RoundStates(table, sections, states) == states
    ensures Layouts(table, sections, states) == last
  {
    hide RelaxedStates, Relax.Layout, Settled;
    forall s | 0 <= s < |sections|
      ensures Relax.Layout(table, Chain(sections[s].frags), states[s]) == last[s]
    {
      if AllZero(last) {
        QuietRound(table, Chain(sections[s].frags), states[s], last[s]);
      }
    }
  }

  /** The outer loop of layout_addresses: rounds over all sections until no address changes. Two
      rounds always do; and because the last round works out its first guess from the final
      states, every limited align that the final addresses apply is known to the section. */
  method RelaxUntilQuiet(table: RelaxTable, sections: seq<Section>, ghost states0: seq<seq<nat>>, ghost zeros: seq<seq<int>>)
    returns (ghost rounds: nat)
    requires ValidSections(table, sections, states0) && |zeros| == |sections| && AllZero(zeros)
    requires forall s :: 0 <= s < |sections| ==> Stands(sections[s], states0[s], zeros[s])
    modifies AllSections(sections), AllFrags(sections)
    ensures var states := RoundStates(table, sections, states0);
      var addrs := Layouts(table, sections, states);
      && (forall s :: 0 <= s < |sections| ==> Stood(sections[s], states[s], addrs[s]))
      && (forall s :: 0 <= s < |sections| ==> Recorded(sections[s], addrs[s]))
    ensures forall s :: 0 <= s < |sections| ==> RaisedFrom(sections[s], old(sections[s].align))
    ensures 1 <= rounds <= 2
  {
    hide RelaxedStates, Relax.Layout, RaisedAlign, Layouts, RoundStates;
    hide Chain, ValidChain, ValidStates, Distinct, FragSet, AllSections, AllFrags;
    ghost var states, last := states0, zeros;
    ghost var final := RoundStates(table, sections, states0);
    ghost var finals := Layouts(table, sections, final);
    rounds := 0;
    var changed := true;
    while changed
      invariant ValidSections(table, sections, states) && |last| == |sections|
      invariant forall s :: 0 <= s < |sections| ==> Stands(sections[s], states[s], last[s])
      invariant rounds == 0 ==> changed && states == states0 && last == zeros
      invariant rounds > 0 ==> states == final && last == finals
      invariant rounds > 0 ==> forall s :: 0 <= s < |sections| ==> Stood(sections[s], states[s], last[s])
      invariant !changed ==> forall s :: 0 <= s < |sections| ==> Recorded(sections[s], finals[s])
      invariant forall s :: 0 <= s < |sections| ==> RaisedFrom(sections[s], old(sections[s].align))
      invariant rounds == 2 ==> !changed
      invariant rounds <= 2
      decreases 2 - rounds
    {
      label before:
      ghost var guess := Layouts(table, sections, states);
      SecondRound(table, sections, states0);
      changed := RelaxRound(table, sections, states, last);
      if !changed {
        QuietRounds(table, sections, states, last);
      }
      forall s | 0 <= s < |sections|
        ensures RaisedFrom(sections[s], old(sections[s].align))
        ensures !changed ==> Recorded(sections[s], finals[s])
      {
        var chain := Chain(sections[s].frags);
        var was := old(sections[s].align);
        assert old@before(RaisedFrom(sections[s], was));
        AppliedAlignsAreRecorded(chain, guess[s], old@before(sections[s].align), |chain|);
      }
      states, last := final, finals;
      rounds := rounds + 1;
    }
  }

  // ---------------------------------------------------------------- sliding the sections apart

  /** What sliding needs to know of a section. */
  datatype Extent = Extent(align: nat, size: nat, zerofill: bool)

  /** v rounded up to a multiple of r. */
  function Rnd(v: nat, r: nat): (w: nat)
    requires r > 0
    ensures v <= w < v + r && w % r == 0
  {
    RoundUpIsNext(v, r);
    (v + (r - 1)) / r * r
  }

  /** The slide after the loop over the sections of one kind has seen the first n sections. */
  function SlideAfter(extents: seq<Extent>, zerofill: bool, from: nat, n: nat): nat
    requires n <= |extents|
  {
    if n == 0 then from else
      var before := SlideAfter(extents, zerofill, from, n - 1);
      if extents[n-1].zerofill != zerofill then before
      else Rnd(before, Pow2(extents[n-1].align)) + extents[n-1].size
  }

  /** Zero-fill sections are placed after all the others. */
  function SlideFrom(extents: seq<Extent>, zerofill: bool): nat {
    if zerofill then SlideAfter(extents, false, 0, |extents|) else 0
  }

  function StartOf(extents: seq<Extent>, s: nat): nat
    requires s < |extents|
  {
    var zerofill := extents[s].zerofill;
    Rnd(SlideAfter(extents, zerofill, SlideFrom(extents, zerofill), s), Pow2(extents[s].align))
  }

  lemma {:induction false} SlideGrows(extents: seq<Extent>, zerofill: bool, from: nat, m: nat, n: nat)
    requires m <= n <= |extents|
    ensures SlideAfter(extents, zerofill, from, m) <= SlideAfter(extents, zerofill, from, n)
  {
    if m < n {
      SlideGrows(extents, zerofill, from, m, n - 1);
    }
  }

  /** The sections partition the object file: each starts at a multiple of its alignment, sections
      of one kind follow each other in chain order, and zero-fill comes after everything else. */
  lemma SectionsArePartitioned(extents: seq<Extent>, s: nat, t: nat)
    requires s < |extents| && t < |extents|
    ensures StartOf(extents, s) % Pow2(extents[s].align) == 0
    ensures s < t && extents[s].zerofill == extents[t].zerofill ==>
      StartOf(extents, s) + extents[s].size <= StartOf(extents, t)
    ensures !extents[s].zerofill && extents[t].zerofill ==>
      StartOf(extents, s) + extents[s].size <= StartOf(extents, t)
  {
    var zerofill := extents[s].zerofill;
    if s < t && extents[t].zerofill == zerofill {
      SlideGrows(extents, zerofill, SlideFrom(extents, zerofill), s + 1, t);
    } else if !zerofill && extents[t].zerofill {
      SlideGrows(extents, false, 0, s + 1, |extents|);
      SlideGrows(extents, true, SlideFrom(extents, true), 0, t);
    }
  }

  /** Ordinary sections are placed in list order, and then the zero-fill ones in theirs. */
  predicate PlacedBefore(extents: seq<Extent>, r: nat, s: nat)
    requires r < |extents| && s < |extents|
  {
    if extents[r].zerofill == extents[s].zerofill then r < s else extents[s].zerofill
  }

  /** The last of the first n sections of a kind; n when there is none. */
  function LastOf(extents: seq<Extent>, zerofill: bool, n: nat): (r: nat)
    requires n <= |extents|
    ensures r <= n
    ensures r < n ==> extents[r].zerofill == zerofill && forall t :: r < t < n ==> extents[t].zerofill != zerofill
    ensures r == n ==> forall t :: 0 <= t < n ==> extents[t].zerofill != zerofill
  {
    if n == 0 then 0
    else if extents[n-1].zerofill == zerofill then n - 1
    else
      var r := LastOf(extents, zerofill, n - 1);
      if r == n - 1 then n else r
  }

  /** The slide is where the last section of the kind ends, or where the loop started from. */
  lemma {:induction false} SlideIsEnd(extents: seq<Extent>, zerofill: bool, n: nat)
    requires n <= |extents|
    ensures var r := LastOf(extents, zerofill, n);
      SlideAfter(extents, zerofill, SlideFrom(extents, zerofill), n) ==
        if r == n then SlideFrom(extents, zerofill) else StartOf(extents, r) + extents[r].size
  {
    if n > 0 && extents[n-1].zerofill != zerofill {
      SlideIsEnd(extents, zerofill, n - 1);
    }
  }

  /** Nothing is left between the sections but what their alignments ask for: the one that is placed first starts at zero,
      every other one at the first multiple of its alignment after the one before it. */
  lemma SectionsArePacked(extents: seq<Extent>, s: nat)
    requires s < |extents|
    ensures (forall r :: 0 <= r < |extents| ==> !PlacedBefore(extents, r, s)) ==> StartOf(extents, s) == 0
    ensures (exists r :: 0 <= r < |extents| && PlacedBefore(extents, r, s)) ==>
      exists r :: 0 <= r < |extents| && PlacedBefore(extents, r, s) && IsNext(extents, r, s)
  {
    hide Pow2;
    var zerofill := extents[s].zerofill;
    var r, q := LastOf(extents, zerofill, s), LastOf(extents, false, |extents|);
    SlideIsEnd(extents, zerofill, s);
    SlideIsEnd(extents, false, |extents|);
    if r < s {
      assert PlacedBefore(extents, r, s) && IsNext(extents, r, s);
    } else if zerofill && q < |extents| {
      assert PlacedBefore(extents, q, s) && IsNext(extents, q, s);
    } else {
      ZeroIsRound(Pow2(extents[s].align));
    }
  }

  lemma ZeroIsRound(r: nat)
    requires r > 0
    ensures Rnd(0, r) == 0
  {
  }

  /** Less than the alignment lies between the end of one section and the start of another. */
  predicate IsNext(extents: seq<Extent>, r: nat, s: nat)
    requires r < |extents| && s < |extents|
  {
    var end := StartOf(extents, r) + extents[r].size;
    end <= StartOf(extents, s) < end + Pow2(extents[s].align)
  }

  lemma {:induction false} PowerDivides(small: nat, big: nat, x: int)
    requires small <= big && x % Pow2(big) == 0
    ensures x % Pow2(small) == 0
  {
    PowAdd(2, small, big - small);
    var q := x / Pow2(big);
    assert x == q * Pow2(big) == (q * Pow2(big - small)) * Pow2(small);
    ModOfMultiple(q * Pow2(big - small), Pow2(small));
  }

  lemma ModAdd(a: int, b: int, m: int)
    requires m > 0 && a % m == 0 && b % m == 0
    ensures (a + b) % m == 0
  {
    assert a + b == (a / m + b / m) * m;
    ModOfMultiple(a / m + b / m, m);
  }

  /** In its own section's layout, an applied align ends on a multiple of its power of two. */
  lemma AlignEndsAligned(table: RelaxTable, chain: seq<Shape>, states: seq<nat>, k: nat)
    requires ValidStates(table, chain, states) && k < |chain|
    requires Applied(chain[k], AddressOf(table, chain, states, k))
    ensures AddressOf(table, chain, states, k + 1) % Pow2(chain[k].tail.power) == 0
  {
    hide Pow2;
    var address := AddressOf(table, chain, states, k);
    assert AddressOf(table, chain, states, k + 1)
        == address + chain[k].fix + RelaxAlign(address + chain[k].fix, chain[k].tail.power);
  }

  /** An applied align keeps its promise in the object file: once the section has been slid to its
      start, the frag after the align stands on a multiple of the power of two. */
  lemma AlignsSurviveTheSlide(table: RelaxTable, section: Section, states: seq<nat>, addr: seq<int>, k: nat, start: nat)
    requires ValidStates(table, Chain(section.frags), states)
    requires addr == Relax.Layout(table, Chain(section.frags), states) && k + 1 < |addr|
    requires Recorded(section, addr) && Applied(Chain(section.frags)[k], addr[k])
    requires section.frags[k].tail.limit == 0 ==> section.frags[k].tail.power <= section.align
    requires start % Pow2(section.align) == 0
    ensures (start + addr[k+1]) % Pow2(section.frags[k].tail.power) == 0
  {
    hide Pow2, RelaxAlign, AddressOf;
    var chain := Chain(section.frags);
    AlignEndsAligned(table, chain, states, k);
    PowerDivides(chain[k].tail.power, section.align, start);
    ModAdd(start, addr[k+1], Pow2(chain[k].tail.power));
  }

  ghost predicate At(frags: seq<Frag>, addr: seq<int>)
    reads frags
  {
    |addr| == |frags| && forall k :: 0 <= k < |frags| ==> frags[k].address == addr[k]
  }

  /** Every section has a root frag and, after it, the empty frag that marks its end. Before sliding
      the end of an ordinary section, and the root of a zero-fill section, hold its size. */
  function ExtentOf(section: Section, addr: seq<int>): Extent
    requires |section.frags| == |addr| >= 2 && addr[0] >= 0 && addr[|addr|-1] >= 0
    reads section
  {
    Extent(section.align, if section.zerofill then addr[0] else addr[|addr|-1], section.zerofill)
  }

  /** The addresses of a section that starts at the given place. */
  ghost function Slid(extent: Extent, addr: seq<int>, start: nat): (addr': seq<int>)
    requires |addr| >= 2
    ensures |addr'| == |addr|
  {
    if extent.zerofill then addr[0 := start][|addr|-1 := start + extent.size]
    else seq(|addr|, k requires 0 <= k < |addr| => addr[k] + start)
  }

  ghost predicate Extents(sections: seq<Section>, addrs: seq<seq<int>>, extents: seq<Extent>)
    reads AllSections(sections)
  {
    && |sections| == |addrs| == |extents|
    && forall s :: 0 <= s < |sections| ==>
      && |sections[s].frags| == |addrs[s]| >= 2 && addrs[s][0] >= 0 && addrs[s][|addrs[s]|-1] >= 0
      && sections[s] in AllSections(sections) && extents[s] == ExtentOf(sections[s], addrs[s])
  }

  /** Has the loop for one kind already dealt with this section when it reaches section s? */
  predicate DealtWith(extents: seq<Extent>, zerofill: bool, s: nat, t: nat)
    requires t < |extents|
  {
    if extents[t].zerofill == zerofill then t < s else zerofill
  }

  method SlideNth(sections: seq<Section>, s: nat, zerofill: bool, slide: nat,
                  ghost addrs: seq<seq<int>>, ghost extents: seq<Extent>)
    returns (next: nat)
    requires Separate(sections) && Extents(sections, addrs, extents) && s < |sections|
    requires slide == SlideAfter(extents, zerofill, SlideFrom(extents, zerofill), s)
    requires forall t :: 0 <= t < |sections| ==> At(sections[t].frags,
      if DealtWith(extents, zerofill, s, t) then Slid(extents[t], addrs[t], StartOf(extents, t)) else addrs[t])
    modifies FragSet(sections[s].frags)`address
    ensures next == SlideAfter(extents, zerofill, SlideFrom(extents, zerofill), s + 1)
    ensures forall t :: 0 <= t < |sections| ==> At(sections[t].frags,
      if DealtWith(extents, zerofill, s + 1, t) then Slid(extents[t], addrs[t], StartOf(extents, t)) else addrs[t])
  {
    hide SlideFrom, At, Slid, Pow2, Rnd, Distinct;
    var section := sections[s];
    next := slide;
    assert At(section.frags, if DealtWith(extents, zerofill, s, s) then Slid(extents[s], addrs[s], StartOf(extents, s)) else addrs[s]);
    assert extents[s] == ExtentOf(section, addrs[s]);
    if section.zerofill == zerofill {
      next := Rnd(slide, Pow2(section.align));
      if zerofill {
        next := SlideZerofill(section, next, addrs[s]);
      } else {
        next := SlideOrdinary(section, next, addrs[s]);
      }
    }
    forall t | 0 <= t < |sections| && t != s
      ensures At(sections[t].frags,
        if DealtWith(extents, zerofill, s + 1, t) then Slid(extents[t], addrs[t], StartOf(extents, t)) else addrs[t])
    {
      assert old(At(sections[t].frags,
        if DealtWith(extents, zerofill, s, t) then Slid(extents[t], addrs[t], StartOf(extents, t)) else addrs[t]));
      assert FragSet(sections[t].frags) !! FragSet(section.frags);
    }
  }

  method SlideOrdinary(section: Section, start: nat, ghost addr: seq<int>) returns (end: nat)
    requires Distinct(section.frags) && At(section.frags, addr) && |addr| >= 2
    requires addr[0] >= 0 && addr[|addr|-1] >= 0 && !section.zerofill
    modifies FragSet(section.frags)`address
    ensures At(section.frags, Slid(ExtentOf(section, addr), addr, start))
    ensures end == start + ExtentOf(section, addr).size
  {
    var n := |section.frags|;
    var size := section.frags[n-1].address;
    if start != 0 {
      for k := 0 to n
        invariant forall m :: 0 <= m < n ==> section.frags[m].address == addr[m] + if m < k then start else 0
      {
        section.frags[k].address := section.frags[k].address + start;
      }
    }
    end := start + size;
  }

  method SlideZerofill(section: Section, start: nat, ghost addr: seq<int>) returns (end: nat)
    requires Distinct(section.frags) && At(section.frags, addr) && |addr| >= 2
    requires addr[0] >= 0 && addr[|addr|-1] >= 0 && section.zerofill
    modifies FragSet(section.frags)`address
    ensures At(section.frags, Slid(ExtentOf(section, addr), addr, start))
    ensures end == start + ExtentOf(section, addr).size
  {
    var n := |section.frags|;
    var size := section.frags[0].address;
    section.frags[0].address := start;
    section.frags[n-1].address := size + start;
    end := start + size;
  }

  /** The slide loop over the sections of one kind. */
  method SlideKind(sections: seq<Section>, zerofill: bool, from: nat, ghost addrs: seq<seq<int>>, ghost extents: seq<Extent>)
    returns (slide: nat)
    requires Separate(sections) && Extents(sections, addrs, extents) && from == SlideFrom(extents, zerofill)
    requires forall t :: 0 <= t < |sections| ==> At(sections[t].frags,
      if DealtWith(extents, zerofill, 0, t) then Slid(extents[t], addrs[t], StartOf(extents, t)) else addrs[t])
    modifies AllFrags(sections)`address
    ensures slide == SlideAfter(extents, zerofill, from, |extents|)
    ensures forall t :: 0 <= t < |sections| ==> At(sections[t].frags,
      if DealtWith(extents, zerofill, |sections|, t) then Slid(extents[t], addrs[t], StartOf(extents, t)) else addrs[t])
  {
    hide At, Slid, StartOf, FragSet, Distinct, ExtentOf, Separate, SlideFrom;
    slide := from;
    for s := 0 to |sections|
      invariant Extents(sections, addrs, extents)
      invariant slide == SlideAfter(extents, zerofill, from, s)
      invariant forall t :: 0 <= t < |sections| ==> At(sections[t].frags,
        if DealtWith(extents, zerofill, s, t) then Slid(extents[t], addrs[t], StartOf(extents, t)) else addrs[t])
    {
      assert FragSet(sections[s].frags) <= AllFrags(sections);
      slide := SlideNth(sections, s, zerofill, slide, addrs, extents);
    }
  }

  /** The two slide loops of layout_addresses. */
  method SlideSections(sections: seq<Section>, ghost addrs: seq<seq<int>>, ghost extents: seq<Extent>)
    requires Separate(sections) && Extents(sections, addrs, extents)
    requires forall s :: 0 <= s < |sections| ==> At(sections[s].frags, addrs[s])
    modifies AllFrags(sections)`address
    ensures forall s :: 0 <= s < |sections| ==> At(sections[s].frags, Slid(extents[s], addrs[s], StartOf(extents, s)))
  {
    hide At, Slid, StartOf, FragSet, Distinct, ExtentOf, Separate;
    var slide := 0;
    slide := SlideKind(sections, false, slide, addrs, extents);
    slide := SlideKind(sections, true, slide, addrs, extents);
  }

  // ---------------------------------------------------------------- turning aligns into fills

  function Zeros(n: nat): (s: seq<Byte>)
    ensures |s| == n && forall k :: 0 <= k < n ==> s[k] == 0
  {
    seq(n, _ => 0)
  }

  function Repeated(s: seq<Byte>, n: nat): (r: seq<Byte>)
    ensures |r| == n * |s|
  {
    if n == 0 then [] else s + Repeated(s, n - 1)
  }

  /** The bytes of an align frag (frag_align of cctools/as/frags.c): the fixed part, then the fill
      pattern, then room to push the pattern back by up to its size minus one. */
  class AlignFrag {
    const literal: array<Byte>
    var fix: nat       // fr_fix
    var size: nat      // fr_var, the size of the fill pattern
    var repeat: nat    // fr_offset, once the frag has become a fill
    var bad: bool      // as_bad has been called

    ghost predicate Valid()
      reads this
    {
      size >= 1 && fix + size + (size - 1) <= literal.Length
    }

    constructor (fixed: seq<Byte>, fill: seq<Byte>)
      requires |fill| >= 1
      ensures Valid() && fresh(literal)
      ensures fix == |fixed| && size == |fill| && literal[..fix] == fixed
      ensures bad <==> |fill| !in {1, 2, 4}
      ensures !bad ==> literal[fix..fix + size] == fill
    {
      fix, size, repeat := |fixed|, |fill|, 0;
      bad := |fill| !in {1, 2, 4};
      literal := new Byte[|fixed| + |fill| + (|fill| - 1)](_ => 0);
      new;
      for k := 0 to |fixed|
        modifies literal
        invariant literal[..k] == fixed[..k]
      {
        literal[k] := fixed[k];
      }
      if !bad {
        for k := 0 to |fill|
          modifies literal
          invariant literal[..|fixed|] == fixed && literal[|fixed|..|fixed| + k] == fill[..k]
        {
          literal[|fixed| + k] := fill[k];
        }
      }
    }

    /** The memmove and the memset: make room for some zeros in front of the pattern. */
    method PushBack(partial: nat)
      requires Valid() && partial < size
      modifies this`fix, literal
      ensures fix == old(fix) + partial && fix + size <= literal.Length
      ensures literal[..old(fix)] == old(literal[..fix]) && literal[old(fix)..fix] == Zeros(partial)
      ensures literal[fix..fix + size] == old(literal[fix..fix + size])
      ensures literal[fix + size..] == old(literal[..])[fix + size..]
    {
      if partial != 0 {
        var start := fix;
        ghost var before := literal[..];
        var pattern := literal[fix..fix + size];
        for k := 0 to size
          modifies literal
          invariant forall m :: 0 <= m < literal.Length && !(start + partial <= m < start + partial + k) ==> literal[m] == before[m]
          invariant forall m :: 0 <= m < k ==> literal[start + partial + m] == pattern[m]
        {
          literal[start + partial + k] := pattern[k];
        }
        ghost var moved := literal[..];
        for k := 0 to partial
          modifies literal
          invariant forall m :: 0 <= m < literal.Length && !(start <= m < start + k) ==> literal[m] == moved[m]
          invariant forall m :: start <= m < start + k ==> literal[m] == 0
        {
          literal[start + k] := 0;
        }
        fix := fix + partial;
      }
    }

    /** The rs_align case of the conversion loop: the frag is to take up the given number of bytes
        after its fixed part. They become zeros followed by whole patterns, and nothing outside the
        room that was reserved for the pattern is written. */
    method Convert(gap: int)
      requires Valid()
      modifies this, literal
      ensures var nbytes := if gap < 0 then 0 else gap;
        var fill := old(literal[fix..fix + size]);
        && size == old(size) && fix + size <= literal.Length
        && old(fix) <= fix && fix + size <= old(fix) + old(size) + (old(size) - 1)
        && literal[..old(fix)] == old(literal[..fix]) && literal[fix + size..] == old(literal[..])[fix + size..]
        && literal[..fix] + Repeated(literal[fix..fix + size], repeat)
           == old(literal[..fix]) + Zeros(nbytes % size) + Repeated(fill, nbytes / size)
        && fix - old(fix) + repeat * size == nbytes
    {
      hide Repeated, Zeros;
      var nbytes := if gap < 0 then 0 else gap;
      repeat := nbytes / size;
      var partial := nbytes - repeat * size;
      assert partial == nbytes % size;
      PushBack(partial);
      assert literal[..fix] == old(literal[..fix]) + Zeros(partial);
    }
  }

  /** Converted, an align frag is exactly as long as the layout says: the next frag's address less
      its own. */
  lemma ConvertedLength(fixed: seq<Byte>, fill: seq<Byte>, nbytes: nat)
    requires |fill| >= 1
    ensures |fixed + Zeros(nbytes % |fill|) + Repeated(fill, nbytes / |fill|)| == |fixed| + nbytes
  {
    assert nbytes == (nbytes / |fill|) * |fill| + nbytes % |fill|;
  }

}
