/** What deleting, moving and replacing leave in an archive (cctools/ar/delete.c, move.c, replace.c), said of its members and
    of the arguments by their numbers: which argument each member uses up, and what becomes of the member for that. */
module ArOutcome {
  import opened ArFormat
  import opened ArObject
  import opened ArOperations
  import opened ArReplace
  import opened Decimal
  import opened Wrappers

  // ---------------------------------------------------------------- the members and their arguments

  /** The first fifteen characters. */
  function Shortened(s: string): string {
    if |s| <= 15 then s else s[..15]
  }

  /** Is the last component of the path the name, or are they the same when both are cut short? */
  predicate Names(truncate: bool, path: string, name: string) {
    if truncate then Shortened(Rname(path)) == Shortened(name) else Rname(path) == name
  }

  /** Has none of the first k members used up argument j? */
  predicate IsFree(claims: seq<Option<nat>>, k: nat, j: nat)
    requires k <= |claims|
  {
    forall i :: 0 <= i < k ==> claims[i] != Some(j)
  }

  /** Each member in turn uses up the first argument that names it of those that are left, if there is one. */
  ghost predicate AreClaims(truncate: bool, ms: seq<Member>, argv: seq<string>, claims: seq<Option<nat>>) {
    |claims| == |ms| && forall k :: 0 <= k < |ms| ==> IsClaim(truncate, ms[k].name, argv, claims, k)
  }

  ghost predicate IsClaim(truncate: bool, name: string, argv: seq<string>, claims: seq<Option<nat>>, k: nat)
    requires k < |claims|
  {
    match claims[k]
    case Some(j) =>
      && j < |argv| && IsFree(claims, k, j) && Names(truncate, argv[j], name)
      && forall i :: 0 <= i < j && IsFree(claims, k, i) ==> !Names(truncate, argv[i], name)
    case None => forall i :: 0 <= i < |argv| && IsFree(claims, k, i) ==> !Names(truncate, argv[i], name)
  }

  /** There is only one way of using the arguments up. */
  lemma {:induction false} ClaimsAreUnique(truncate: bool, ms: seq<Member>, argv: seq<string>, c: seq<Option<nat>>,
                                           d: seq<Option<nat>>, k: nat)
    requires AreClaims(truncate, ms, argv, c) && AreClaims(truncate, ms, argv, d) && k <= |ms|
    ensures c[..k] == d[..k]
  {
    if k > 0 {
      hide Names;
      var last := k - 1;
      ClaimsAreUnique(truncate, ms, argv, c, d, last);
      assert IsClaim(truncate, ms[last].name, argv, c, last) && IsClaim(truncate, ms[last].name, argv, d, last);
      assert forall i :: 0 <= i < last ==> c[i] == c[..last][i] && d[i] == d[..last][i];
      assert forall j: nat :: IsFree(c, last, j) <==> IsFree(d, last, j);
      assert c[..k] == c[..last] + [c[last]] && d[..k] == d[..last] + [d[last]];
    }
  }

  /** The elements that are marked. */
  function Where<T>(s: seq<T>, marks: seq<bool>): (r: seq<T>)
    requires |marks| == |s|
  {
    if s == [] then [] else (if marks[0] then [s[0]] else []) + Where(s[1..], marks[1..])
  }

  /** The members that use up an argument, or none. */
  function Claiming(claims: seq<Option<nat>>): (marks: seq<bool>)
    ensures |marks| == |claims| && forall k :: 0 <= k < |claims| ==> marks[k] == claims[k].Some?
  {
    seq(|claims|, k requires 0 <= k < |claims| => claims[k].Some?)
  }

  function Others(claims: seq<Option<nat>>): (marks: seq<bool>)
    ensures |marks| == |claims| && forall k :: 0 <= k < |claims| ==> marks[k] == claims[k].None?
  {
    seq(|claims|, k requires 0 <= k < |claims| => claims[k].None?)
  }

  /** The arguments that no member uses up. */
  function LeftOver(n: nat, claims: seq<Option<nat>>): (marks: seq<bool>)
    ensures |marks| == n && forall j :: 0 <= j < n ==> marks[j] == IsFree(claims, |claims|, j)
  {
    seq(n, j requires 0 <= j < n => IsFree(claims, |claims|, j))
  }

  // ---------------------------------------------------------------- finding them

  lemma NamesIsMatches(truncate: bool, name: string, path: string)
    ensures Names(truncate, path, name) <==> Matches(truncate, name, path)
  {
  }

  /** The first argument still marked that names the member, or their number. */
  function FirstFree(truncate: bool, name: string, argv: seq<string>, free: seq<bool>): (j: nat)
    requires |free| == |argv|
    ensures j <= |argv| && (j < |argv| ==> free[j] && Names(truncate, argv[j], name))
    ensures forall i :: 0 <= i < j && free[i] ==> !Names(truncate, argv[i], name)
  {
    if argv == [] || (free[0] && Names(truncate, argv[0], name)) then 0 else 1 + FirstFree(truncate, name, argv[1..], free[1..])
  }

  /** Among the arguments left it is the first that names the member, and using it up leaves the others. */
  lemma {:induction false} FirstOfLeft(truncate: bool, name: string, argv: seq<string>, free: seq<bool>)
    requires |free| == |argv|
    ensures var j, i, left := FirstFree(truncate, name, argv, free), FirstMatch(truncate, name, Where(argv, free)), Where(argv, free);
      && (i < |left| <==> j < |argv|)
      && (j < |argv| ==> left[i] == argv[j] && Without(left, i) == Where(argv, free[j := false]))
  {
    hide Matches, Names, Without, FirstMatch;
    if argv == [] {
      MatchOfNone(truncate, name);
    } else {
      NamesIsMatches(truncate, name, argv[0]);
      var left := Where(argv[1..], free[1..]);
      MatchOfTwo(truncate, name, argv[0], left);
      FirstOfLeft(truncate, name, argv[1..], free[1..]);
      assert Where(argv, free) == if free[0] then [argv[0]] + left else left;
      var j := FirstFree(truncate, name, argv, free);
      if j == 0 {
        assert free[0 := false][1..] == free[1..];
      } else if j < |argv| {
        assert free[j := false][1..] == free[1..][j - 1 := false];
      }
    }
  }

  lemma MatchOfNone(truncate: bool, name: string)
    ensures FirstMatch(truncate, name, []) == 0
  {
  }

  /** Marks after one more argument is used up. */
  function Used(free: seq<bool>, j: nat): (r: seq<bool>)
    ensures |r| == |free|
  {
    if j < |free| then free[j := false] else free
  }

  function Claims(truncate: bool, ms: seq<Member>, argv: seq<string>, free: seq<bool>): (claims: seq<Option<nat>>)
    requires |free| == |argv|
    ensures |claims| == |ms|
  {
    if ms == [] then [] else
      var j := FirstFree(truncate, ms[0].name, argv, free);
      [if j < |argv| then Some(j) else None] + Claims(truncate, ms[1..], argv, Used(free, j))
  }

  predicate IsClaimOf(truncate: bool, name: string, argv: seq<string>, free: seq<bool>, claims: seq<Option<nat>>, k: nat)
    requires k < |claims| && |free| == |argv|
  {
    match claims[k]
    case Some(j) =>
      && j < |argv| && free[j] && IsFree(claims, k, j) && Names(truncate, argv[j], name)
      && forall i :: 0 <= i < j && free[i] && IsFree(claims, k, i) ==> !Names(truncate, argv[i], name)
    case None => forall i :: 0 <= i < |argv| && free[i] && IsFree(claims, k, i) ==> !Names(truncate, argv[i], name)
  }

  lemma FreeLater(first: Option<nat>, later: seq<Option<nat>>, k: nat, j: nat)
    requires k <= |later|
    ensures IsFree([first] + later, k + 1, j) <==> first != Some(j) && IsFree(later, k, j)
  {
    var claims := [first] + later;
    if first != Some(j) && IsFree(later, k, j) {
      forall i | 0 <= i < k + 1 ensures claims[i] != Some(j) {
      }
    }
    if IsFree(claims, k + 1, j) {
      assert claims[0] == first;
      forall i | 0 <= i < k ensures later[i] != Some(j) {
        assert claims[i + 1] == later[i];
      }
    }
  }

  lemma {:induction false} ClaimOf(truncate: bool, ms: seq<Member>, argv: seq<string>, free: seq<bool>, k: nat)
    requires |free| == |argv| && k < |ms|
    ensures IsClaimOf(truncate, ms[k].name, argv, free, Claims(truncate, ms, argv, free), k)
  {
    hide Names, IsFree;
    var j := FirstFree(truncate, ms[0].name, argv, free);
    var later, first := Claims(truncate, ms[1..], argv, Used(free, j)), if j < |argv| then Some(j) else None;
    if k == 0 {
      NobodyBefore([first] + later);
    } else {
      ClaimOf(truncate, ms[1..], argv, Used(free, j), k - 1);
      ClaimLater(truncate, ms[k].name, argv, free, j, later, k - 1);
    }
  }

  lemma ClaimLater(truncate: bool, name: string, argv: seq<string>, free: seq<bool>, j: nat, later: seq<Option<nat>>, k: nat)
    requires |free| == |argv| && k < |later| && j <= |argv|
    requires IsClaimOf(truncate, name, argv, Used(free, j), later, k)
    ensures IsClaimOf(truncate, name, argv, free, [if j < |argv| then Some(j) else None] + later, k + 1)
  {
    hide Names, IsFree;
    var first := if j < |argv| then Some(j) else None;
    forall i: nat | i < |argv|
      ensures free[i] && IsFree([first] + later, k + 1, i) <==> Used(free, j)[i] && IsFree(later, k, i)
    {
      FreeLater(first, later, k, i);
    }
  }

  lemma NobodyBefore(claims: seq<Option<nat>>)
    ensures forall j: nat :: IsFree(claims, 0, j)
  {
  }

  /** Which argument each member uses up. */
  function ClaimsOf(truncate: bool, ms: seq<Member>, argv: seq<string>): (claims: seq<Option<nat>>)
    ensures AreClaims(truncate, ms, argv, claims)
  {
    var free := seq(|argv|, _ => true);
    var claims := Claims(truncate, ms, argv, free);
    assert AreClaims(truncate, ms, argv, claims) by {
      hide Names, IsFree, Claims;
      forall k | 0 <= k < |ms| ensures IsClaim(truncate, ms[k].name, argv, claims, k) {
        ClaimOf(truncate, ms, argv, free, k);
      }
    }
    claims
  }

  /** The marks that are left. */
  lemma {:induction false} LeftMarks(truncate: bool, ms: seq<Member>, argv: seq<string>, free: seq<bool>, j: nat)
    requires |free| == |argv| && j < |argv|
    ensures var claims := Claims(truncate, ms, argv, free);
      MarksAfter(truncate, ms, argv, free)[j] == (free[j] && IsFree(claims, |claims|, j))
  {
    hide Names, IsFree;
    if ms == [] {
      NobodyBefore([]);
    } else {
      var i := FirstFree(truncate, ms[0].name, argv, free);
      var later, first := Claims(truncate, ms[1..], argv, Used(free, i)), if i < |argv| then Some(i) else None;
      LeftMarks(truncate, ms[1..], argv, Used(free, i), j);
      FreeLater(first, later, |later|, j);
    }
  }

  function MarksAfter(truncate: bool, ms: seq<Member>, argv: seq<string>, free: seq<bool>): (r: seq<bool>)
    requires |free| == |argv|
    ensures |r| == |argv|
  {
    if ms == [] then free
    else MarksAfter(truncate, ms[1..], argv, Used(free, FirstFree(truncate, ms[0].name, argv, free)))
  }

  lemma {:induction false} AllMarked(argv: seq<string>)
    ensures Where(argv, seq(|argv|, _ => true)) == argv
  {
    if argv != [] {
      AllMarked(argv[1..]);
      assert seq(|argv|, _ => true)[1..] == seq(|argv| - 1, _ => true);
    }
  }

  // ---------------------------------------------------------------- deleting

  lemma {:induction false} DeletedAre(truncate: bool, ms: seq<Member>, argv: seq<string>, free: seq<bool>)
    requires |free| == |argv|
    ensures Delete'(truncate, ms, Where(argv, free))
      == Deleted(Where(ms, Others(Claims(truncate, ms, argv, free))), Where(argv, MarksAfter(truncate, ms, argv, free)))
  {
    hide Names, Matches, FirstFree, FirstMatch, Without;
    if ms != [] {
      var j := FirstFree(truncate, ms[0].name, argv, free);
      FirstOfLeft(truncate, ms[0].name, argv, free);
      DeletedAre(truncate, ms[1..], argv, Used(free, j));
      ClaimsFront(truncate, ms, argv, free);
    }
  }

  /** Delete leaves the members that use up no argument, in their order, and reports the arguments that no member uses up. */
  lemma DeleteOutcome(truncate: bool, ms: seq<Member>, argv: seq<string>, claims: seq<Option<nat>>)
    requires AreClaims(truncate, ms, argv, claims)
    ensures Delete'(truncate, ms, argv) == Deleted(Where(ms, Others(claims)), Where(argv, LeftOver(|argv|, claims)))
  {
    hide Names, IsFree, IsClaim, Delete', Where;
    var free := seq(|argv|, _ => true);
    OnlyClaims(truncate, ms, argv, claims);
    DeletedAre(truncate, ms, argv, free);
    AllMarked(argv);
    LeftAre(truncate, ms, argv, claims);
  }

  lemma OnlyClaims(truncate: bool, ms: seq<Member>, argv: seq<string>, claims: seq<Option<nat>>)
    requires AreClaims(truncate, ms, argv, claims)
    ensures claims == Claims(truncate, ms, argv, seq(|argv|, _ => true))
  {
    hide Names, IsFree, IsClaim;
    var c := ClaimsOf(truncate, ms, argv);
    ClaimsAreUnique(truncate, ms, argv, claims, c, |ms|);
    assert claims[..|ms|] == claims && c[..|ms|] == c;
  }

  lemma LeftAre(truncate: bool, ms: seq<Member>, argv: seq<string>, claims: seq<Option<nat>>)
    requires claims == Claims(truncate, ms, argv, seq(|argv|, _ => true))
    ensures MarksAfter(truncate, ms, argv, seq(|argv|, _ => true)) == LeftOver(|argv|, claims)
  {
    hide Names, IsFree, Claims, MarksAfter;
    forall j | 0 <= j < |argv|
      ensures MarksAfter(truncate, ms, argv, seq(|argv|, _ => true))[j] == LeftOver(|argv|, claims)[j]
    {
      LeftMarks(truncate, ms, argv, seq(|argv|, _ => true), j);
    }
  }

  // ---------------------------------------------------------------- the position

  /** Does the path of the position name this member, which uses up no argument? */
  predicate IsPlace(o: Options, position: string, ms: seq<Member>, claims: seq<Option<nat>>, k: nat)
    requires k < |ms| == |claims|
  {
    claims[k].None? && Names(o.truncate, position, ms[k].name)
  }

  /** Is a position asked for that no such member has? */
  predicate IsMissed(o: Options, position: string, ms: seq<Member>, claims: seq<Option<nat>>)
    requires |ms| == |claims|
  {
    (o.after || o.before) && forall k :: 0 <= k < |ms| ==> !IsPlace(o, position, ms, claims, k)
  }

  /** The first q members stand before the position: it is right before or right after the first member that has its name and
      uses up no argument; without a position all members stand before it. */
  ghost predicate IsSplit(o: Options, position: string, ms: seq<Member>, claims: seq<Option<nat>>, q: nat)
    requires |ms| == |claims|
  {
    if o.after || o.before then
      exists k :: 0 <= k < |ms| && IsPlace(o, position, ms, claims, k)
        && (forall i :: 0 <= i < k ==> !IsPlace(o, position, ms, claims, i)) && q == if o.before then k else k + 1
    else q == |ms|
  }

  /** The first place, or the number of members. */
  function FirstPlace(o: Options, position: string, ms: seq<Member>, claims: seq<Option<nat>>): (k: nat)
    requires |ms| == |claims|
    ensures k <= |ms| && (k < |ms| ==> IsPlace(o, position, ms, claims, k))
    ensures forall i :: 0 <= i < k ==> !IsPlace(o, position, ms, claims, i)
  {
    if ms == [] || IsPlace(o, position, ms, claims, 0) then 0 else
      var k := FirstPlace(o, position, ms[1..], claims[1..]);
      assert forall i :: 0 <= i < |ms| - 1 ==>
        IsPlace(o, position, ms[1..], claims[1..], i) == IsPlace(o, position, ms, claims, i + 1);
      assert forall i :: 0 < i < k + 1 ==> IsPlace(o, position, ms, claims, i) == IsPlace(o, position, ms[1..], claims[1..], i - 1);
      k + 1
  }

  function PlaceOf(o: Options, position: string, ms: seq<Member>, claims: seq<Option<nat>>, sought: bool): (q: nat)
    requires |ms| == |claims|
    ensures q <= |ms|
  {
    var k := FirstPlace(o, position, ms, claims);
    if !sought || k == |ms| then |ms| else if o.before then k else k + 1
  }

  lemma PlaceSplits(o: Options, position: string, ms: seq<Member>, claims: seq<Option<nat>>)
    requires |ms| == |claims|
    ensures var sought, k := o.after || o.before, FirstPlace(o, position, ms, claims);
      && (sought && k == |ms| <==> IsMissed(o, position, ms, claims))
      && (!IsMissed(o, position, ms, claims) ==>
            IsSplit(o, position, ms, claims, PlaceOf(o, position, ms, claims, sought)))
  {
    hide IsPlace, FirstPlace;
  }

  // ---------------------------------------------------------------- moving

  lemma {:induction false} SelectedAre(o: Options, position: string, ms: seq<Member>, argv: seq<string>, free: seq<bool>,
                                       inAfter: bool, mods: bool)
    requires |free| == |argv|
    ensures Move'(o, position, ms, Where(argv, free), inAfter, mods).selected
      == Where(ms, Claiming(Claims(o.truncate, ms, argv, free)))
  {
    hide Names, Matches, FirstFree, FirstMatch, Without;
    if ms != [] {
      var j := FirstFree(o.truncate, ms[0].name, argv, free);
      var here := mods && Matches(o.truncate, ms[0].name, position);
      var into := inAfter || (here && o.before);
      FirstOfLeft(o.truncate, ms[0].name, argv, free);
      if j < |argv| {
        SelectedAre(o, position, ms[1..], argv, Used(free, j), inAfter, mods);
      } else {
        SelectedAre(o, position, ms[1..], argv, free, into || (here && o.after), mods && !here);
      }
      ClaimsFront(o.truncate, ms, argv, free);
    }
  }

  lemma MoveFront(o: Options, position: string, ms: seq<Member>, argv: seq<string>, sought: bool)
    requires ms != [] && (sought ==> o.after || o.before)
    ensures var p, i := Move'(o, position, ms, argv, false, sought), FirstMatch(o.truncate, ms[0].name, argv);
      if i < |argv| then
        var r := Move'(o, position, ms[1..], Without(argv, i), false, sought);
        p.mods == r.mods && |p.before| == |r.before|
      else if sought && Matches(o.truncate, ms[0].name, position) then
        !p.mods && |p.before| == if o.before then 0 else 1
      else
        var r := Move'(o, position, ms[1..], argv, false, sought);
        p.mods == r.mods && |p.before| == |r.before| + 1
  {
    hide Matches, FirstMatch;
    if sought && Matches(o.truncate, ms[0].name, position) {
      MoveInAfter(o, position, ms[1..], argv, true, false);
    }
  }

  /** How many of the first q members use up no argument. */
  function Staying(ms: seq<Member>, claims: seq<Option<nat>>, q: nat): nat
    requires q <= |ms| == |claims|
  {
    |Where(ms[..q], Others(claims)[..q])|
  }

  lemma StayingFront(ms: seq<Member>, claims: seq<Option<nat>>, q: nat)
    requires q <= |ms| == |claims|
    ensures q == 0 ==> Staying(ms, claims, q) == 0
    ensures q > 0 ==> Staying(ms, claims, q) == Staying(ms[1..], claims[1..], q - 1) + if claims[0].None? then 1 else 0
  {
    if q > 0 {
      MoreOfFirst(ms, Others(claims), q - 1);
      assert Others(claims)[1..] == Others(claims[1..]);
    }
  }

  lemma NothingMoved(o: Options, position: string, argv: seq<string>, free: seq<bool>, sought: bool)
    requires |free| == |argv|
    ensures Move'(o, position, [], Where(argv, free), false, sought).before == []
    ensures Move'(o, position, [], Where(argv, free), false, sought).mods == sought
    ensures Claims(o.truncate, [], argv, free) == [] && FirstPlace(o, position, [], []) == PlaceOf(o, position, [], [], sought) == 0
  {
  }

  /** The position as moving finds it. */
  lemma {:induction false} MoveSplits(o: Options, position: string, ms: seq<Member>, argv: seq<string>, free: seq<bool>,
                                      sought: bool)
    requires |free| == |argv| && (sought ==> o.after || o.before)
    ensures var p, claims := Move'(o, position, ms, Where(argv, free), false, sought), Claims(o.truncate, ms, argv, free);
      && (p.mods <==> sought && FirstPlace(o, position, ms, claims) == |ms|)
      && |p.before| == Staying(ms, claims, PlaceOf(o, position, ms, claims, sought))
  {
    hide Names, Matches, FirstFree, FirstMatch, Without, Where, FirstPlace, PlaceOf, Claims, Move', Staying, Used;
    var claims := Claims(o.truncate, ms, argv, free);
    StayingFront(ms, claims, PlaceOf(o, position, ms, claims, sought));
    if ms == [] {
      NothingMoved(o, position, argv, free, sought);
    } else {
      var m, rest := ms[0], ms[1..];
      var j := FirstFree(o.truncate, m.name, argv, free);
      FirstOfLeft(o.truncate, m.name, argv, free);
      ClaimsFront(o.truncate, ms, argv, free);
      PlaceFront(o, position, ms, claims, sought);
      MoveFront(o, position, ms, Where(argv, free), sought);
      MarksUsed(free, j);
      if j < |argv| || !sought || !Matches(o.truncate, m.name, position) {
        MoveSplits(o, position, rest, argv, Used(free, j), sought);
      } else {
        StayingFront(rest, claims[1..], 0);
      }
    }
  }

  lemma MarksUsed(free: seq<bool>, j: nat)
    ensures Used(free, j) == if j < |free| then free[j := false] else free
  {
  }

  lemma ClaimsFront(truncate: bool, ms: seq<Member>, argv: seq<string>, free: seq<bool>)
    requires |free| == |argv| && ms != []
    ensures var j, claims := FirstFree(truncate, ms[0].name, argv, free), Claims(truncate, ms, argv, free);
      var later := Claims(truncate, ms[1..], argv, Used(free, j));
      && claims[0] == (if j < |argv| then Some(j) else None) && claims[1..] == later
      && Others(claims)[1..] == Others(later) && Claiming(claims)[1..] == Claiming(later)
  {
    hide FirstFree, Others, Claiming;
    var j := FirstFree(truncate, ms[0].name, argv, free);
    var later, first := Claims(truncate, ms[1..], argv, Used(free, j)), if j < |argv| then Some(j) else None;
    assert Claims(truncate, ms, argv, free) == [first] + later;
    hide Claims;
    MarksFront(first, later);
  }

  lemma MarksFront(first: Option<nat>, later: seq<Option<nat>>)
    ensures ([first] + later)[0] == first && ([first] + later)[1..] == later
    ensures Others([first] + later)[1..] == Others(later) && Claiming([first] + later)[1..] == Claiming(later)
  {
    hide Others, Claiming;
    var all := [first] + later;
    assert forall k :: 0 <= k < |later| ==> all[k + 1] == later[k];
    assert Others(all)[1..] == Others(later);
    assert Claiming(all)[1..] == Claiming(later);
  }

  /** The position of a chain is found at its first member or later. */
  lemma PlaceFront(o: Options, position: string, ms: seq<Member>, claims: seq<Option<nat>>, sought: bool)
    requires |ms| == |claims| > 0
    ensures !sought ==> PlaceOf(o, position, ms, claims, sought) == |ms|
    ensures !sought ==> PlaceOf(o, position, ms[1..], claims[1..], sought) == |ms| - 1
    ensures var k := FirstPlace(o, position, ms, claims);
      if claims[0].None? && Matches(o.truncate, ms[0].name, position) then
        k == 0 && (sought ==> PlaceOf(o, position, ms, claims, sought) == if o.before then 0 else 1)
      else
        k == 1 + FirstPlace(o, position, ms[1..], claims[1..])
        && PlaceOf(o, position, ms, claims, sought) == 1 + PlaceOf(o, position, ms[1..], claims[1..], sought)
  {
    hide Names, Matches;
    NamesIsMatches(o.truncate, ms[0].name, position);
  }

  lemma MoreOfFirst(ms: seq<Member>, marks: seq<bool>, q: nat)
    requires |ms| == |marks| > 0 && q < |ms|
    ensures |ms[1..][..q]| == |marks[1..][..q]|
    ensures Where(ms[..q + 1], marks[..q + 1]) == (if marks[0] then [ms[0]] else []) + Where(ms[1..][..q], marks[1..][..q])
  {
    assert ms[..q + 1][1..] == ms[1..][..q] && marks[..q + 1][1..] == marks[1..][..q];
  }

  lemma {:induction false} WhereOfParts(ms: seq<Member>, marks: seq<bool>, q: nat)
    requires |ms| == |marks| && q <= |ms|
    ensures Where(ms, marks) == Where(ms[..q], marks[..q]) + Where(ms[q..], marks[q..])
  {
    hide Where;
    if q == 0 {
      assert ms[0..] == ms && marks[0..] == marks && ms[..0] == [] && marks[..0] == [];
      NoneOf();
    } else {
      WhereOfParts(ms[1..], marks[1..], q - 1);
      MoreOfFirst(ms, marks, q - 1);
      WhereFront(ms, marks);
      assert ms[1..][q - 1..] == ms[q..] && marks[1..][q - 1..] == marks[q..];
    }
  }

  lemma NoneOf()
    ensures Where<Member>([], []) == []
  {
  }

  lemma WhereFront(ms: seq<Member>, marks: seq<bool>)
    requires |ms| == |marks| > 0
    ensures Where(ms, marks) == (if marks[0] then [ms[0]] else []) + Where(ms[1..], marks[1..])
  {
  }

  /** Move misses the position just when no member that stays has its name. Otherwise it leaves the members that stay on the
      near side of the position, then those that use up an argument, then the others, each in their order. */
  lemma MoveOutcome(o: Options, position: string, ms: seq<Member>, argv: seq<string>, claims: seq<Option<nat>>) returns (q: nat)
    requires AreClaims(o.truncate, ms, argv, claims)
    ensures var p, stay := Move'(o, position, ms, argv, false, o.after || o.before), Others(claims);
      && (p.mods <==> IsMissed(o, position, ms, claims))
      && p.left == Where(argv, LeftOver(|argv|, claims))
      && (!p.mods ==>
            && IsSplit(o, position, ms, claims, q) && q <= |ms|
            && p.before == Where(ms[..q], stay[..q]) && p.selected == Where(ms, Claiming(claims))
            && p.after == Where(ms[q..], stay[q..]))
  {
    hide Names, IsFree, IsClaim, Where, IsSplit, IsMissed, FirstPlace;
    var free, sought := seq(|argv|, _ => true), o.after || o.before;
    OnlyClaims(o.truncate, ms, argv, claims);
    AllMarked(argv);
    MoveSplits(o, position, ms, argv, free, sought);
    SelectedAre(o, position, ms, argv, free, false, sought);
    MoveKeepsOthers(o, position, ms, argv, false, sought);
    DeleteOutcome(o.truncate, ms, argv, claims);
    q := PlaceOf(o, position, ms, claims, sought);
    WhereOfParts(ms, Others(claims), q);
    PlaceSplits(o, position, ms, claims);
    var p := Move'(o, position, ms, argv, false, sought);
    SameParts(p.before, p.after, Where(ms[..q], Others(claims)[..q]), Where(ms[q..], Others(claims)[q..]));
  }

  lemma SameParts(a: seq<Member>, b: seq<Member>, c: seq<Member>, d: seq<Member>)
    requires a + b == c + d && |a| == |c|
    ensures a == c && b == d
  {
    TakeDropMembers(a, b);
    TakeDropMembers(c, d);
  }

  // ---------------------------------------------------------------- replacing

  /** A file of the disk as a member: named by the last component of its path, with the file's stamp and bytes. A name that
      does not fit the header is filled up to the next multiple of four. */
  predicate IsFileMember(truncate: bool, path: string, d: Disk, x: Member) {
    && x.name == (if truncate then Shortened(Rname(path)) else Rname(path)) && x.stamp == d.stamp && x.data == d.data
    && if truncate || (|x.name| <= 16 && ' ' !in x.name) then x.padded == 0
       else x.padded % 4 == 0 && |x.name| <= x.padded < |x.name| + 4
  }

  /** The first n of the twelve characters of a date are its digits. */
  predicate IsDate(stamp: string, n: nat, date: nat) {
    && n <= 12 <= |stamp| && AllDigits(stamp[..n]) && (n < 12 ==> !IsDigit(stamp[n])) && date == DecimalNat(stamp[..n])
  }

  /** Has the file been changed since the date in the stamp? */
  ghost predicate IsNewer(d: Disk, stamp: string) {
    exists n: nat, date: nat :: IsDate(stamp, n, date) && d.mtime > date
  }

  /** What becomes of a member: the file of the argument that it uses up takes its place, if there is such a file, and if
      only newer ones are wanted it is newer; in every other case the member stays as it is. */
  ghost predicate Becomes(o: Options, disk: map<string, Disk>, argv: seq<string>, m: Member, claim: Option<nat>, x: Member) {
    match claim
    case None => x == m
    case Some(j) =>
      && j < |argv|
      && if argv[j] in disk && (o.update ==> IsNewer(disk[argv[j]], m.stamp)) then IsFileMember(o.truncate, argv[j], disk[argv[j]], x)
         else x == m
  }

  lemma NewMemberIsFile(truncate: bool, path: string, d: Disk)
    ensures IsFileMember(truncate, path, d, NewMember(truncate, path, d.stamp, d.data))
  {
    hide Rname;
    var name := Rname(path);
    assert name[..|name|] == name;
  }

  lemma DateOfStamp(stamp: string)
    requires |stamp| == 32
    ensures exists n: nat :: IsDate(stamp, n, DateOf(stamp))
    ensures forall n: nat, date: nat :: IsDate(stamp, n, date) ==> date == DateOf(stamp)
  {
    var s := stamp[..12];
    var k := RunEnd(s, 0);
    assert s[..k] == stamp[..k] && s[Clip(s, 0)..Clip(s, k)] == s[..k];
    assert IsDate(stamp, k, DateOf(stamp));
    forall n: nat, date: nat | IsDate(stamp, n, date) ensures date == DateOf(stamp) {
      OneRun(stamp, n, k);
    }
  }

  lemma OneRun(stamp: string, n: nat, k: nat)
    requires n <= 12 && k <= 12 <= |stamp| && AllDigits(stamp[..n]) && AllDigits(stamp[..k])
    requires (n < 12 ==> !IsDigit(stamp[n])) && (k < 12 ==> !IsDigit(stamp[k]))
    ensures n == k
  {
    if n < k {
      DigitOfRun(stamp, k, n);
    } else if k < n {
      DigitOfRun(stamp, n, k);
    }
  }

  lemma DigitOfRun(s: string, n: nat, i: nat)
    requires i < n <= |s| && AllDigits(s[..n])
    ensures IsDigit(s[i])
  {
    assert s[..n][i] == s[i];
  }

  lemma SwappedBecomes(o: Options, disk: map<string, Disk>, argv: seq<string>, m: Member, j: nat)
    requires |m.stamp| == 32 && j < |argv|
    ensures Becomes(o, disk, argv, m, Some(j), Swapped(o, disk, m, argv[j]))
  {
    hide IsDate, NewMember, DateOf, IsFileMember;
    DateOfStamp(m.stamp);
    if argv[j] in disk {
      NewMemberIsFile(o.truncate, argv[j], disk[argv[j]]);
    }
  }

  lemma {:induction false} InPlaceBecomes(o: Options, disk: map<string, Disk>, ms: seq<Member>, argv: seq<string>, free: seq<bool>,
                                          k: nat)
    requires AreDated(ms) && |free| == |argv| && k < |ms|
    ensures Becomes(o, disk, argv, ms[k], Claims(o.truncate, ms, argv, free)[k], InPlace(o, disk, ms, Where(argv, free))[k])
  {
    hide Names, Matches, FirstFree, FirstMatch, Without, Becomes, Swapped, Where, Claims;
    var j := FirstFree(o.truncate, ms[0].name, argv, free);
    FirstOfLeft(o.truncate, ms[0].name, argv, free);
    ClaimsFront(o.truncate, ms, argv, free);
    if k > 0 {
      InPlaceBecomes(o, disk, ms[1..], argv, Used(free, j), k - 1);
    } else if j < |argv| {
      SwappedBecomes(o, disk, argv, ms[0], j);
    } else {
      StaysAsItIs(o, disk, argv, ms[0]);
    }
  }

  lemma StaysAsItIs(o: Options, disk: map<string, Disk>, argv: seq<string>, m: Member)
    ensures Becomes(o, disk, argv, m, None, m)
  {
  }

  /** The position as replacing finds it. */
  lemma {:induction false} ReplaceSplits(o: Options, position: string, disk: map<string, Disk>, ms: seq<Member>, argv: seq<string>,
                                         free: seq<bool>, sought: bool)
    requires AreDated(ms) && |free| == |argv| && (sought ==> o.after || o.before)
    ensures var p := Replace'(o, position, disk, ms, Where(argv, free), false, sought);
      var claims := Claims(o.truncate, ms, argv, free);
      && (p.mods <==> sought && FirstPlace(o, position, ms, claims) == |ms|)
      && |p.before| == PlaceOf(o, position, ms, claims, sought)
  {
    hide Names, Matches, FirstFree, FirstMatch, Without, Swapped;
    if ms != [] {
      var m, rest := ms[0], ms[1..];
      var j := FirstFree(o.truncate, m.name, argv, free);
      var claims, later := Claims(o.truncate, ms, argv, free), Claims(o.truncate, rest, argv, Used(free, j));
      FirstOfLeft(o.truncate, m.name, argv, free);
      ClaimsFront(o.truncate, ms, argv, free);
      PlaceFront(o, position, ms, claims, sought);
      hide Where, FirstPlace, PlaceOf, Claims;
      if j == |argv| && sought && Matches(o.truncate, m.name, position) {
        ReplaceInAfter(o, position, disk, rest, Where(argv, free), true, false);
        ReplaceFound(o, position, disk, rest, Where(argv, free), true);
      } else {
        ReplaceSplits(o, position, disk, rest, argv, Used(free, j), sought);
      }
    }
  }

  /** A file fails to be opened just when it is missing, whether a member uses the argument up or not. */
  lemma {:induction false} FailuresAre(o: Options, position: string, disk: map<string, Disk>, ms: seq<Member>, argv: seq<string>,
                                       inAfter: bool, mods: bool)
    requires AreDated(ms)
    ensures var p := Replace'(o, position, disk, ms, argv, inAfter, mods);
      p.failed || AnyMissing(disk, p.left) <==> AnyMissing(disk, argv)
  {
    hide Matches, FirstMatch, Swapped, AnyMissing;
    if ms != [] {
      var m, i := ms[0], FirstMatch(o.truncate, ms[0].name, argv);
      if i < |argv| {
        FailuresAre(o, position, disk, ms[1..], Without(argv, i), inAfter, mods);
        MissingWithout(disk, argv, i);
      } else {
        var here := mods && Matches(o.truncate, m.name, position);
        var into := InAfter(o, position, m.name, inAfter, mods);
        FailuresAre(o, position, disk, ms[1..], argv, into || (here && o.after), mods && !here);
      }
    }
  }

  lemma MissingWithout(disk: map<string, Disk>, argv: seq<string>, i: nat)
    requires i < |argv|
    ensures AnyMissing(disk, argv) <==> argv[i] !in disk || AnyMissing(disk, Without(argv, i))
  {
    assert forall path :: path in argv <==> path == argv[i] || path in Without(argv, i);
  }

  function OnDisk(disk: map<string, Disk>, paths: seq<string>): (marks: seq<bool>)
    ensures |marks| == |paths| && forall i :: 0 <= i < |paths| ==> marks[i] == (paths[i] in disk)
  {
    seq(|paths|, i requires 0 <= i < |paths| => paths[i] in disk)
  }

  /** One new member for each file that there is, in the order of the arguments. */
  ghost predicate AreFiles(truncate: bool, disk: map<string, Disk>, paths: seq<string>, added: seq<Member>) {
    var present := Where(paths, OnDisk(disk, paths));
    && |added| == |present|
    && forall i :: 0 <= i < |added| ==> present[i] in disk && IsFileMember(truncate, present[i], disk[present[i]], added[i])
  }

  lemma {:induction false} AddedAreFiles(truncate: bool, disk: map<string, Disk>, paths: seq<string>)
    ensures AreFiles(truncate, disk, paths, Added(truncate, disk, paths))
  {
    hide NewMember, IsFileMember;
    if paths != [] {
      AddedAreFiles(truncate, disk, paths[1..]);
      assert OnDisk(disk, paths)[1..] == OnDisk(disk, paths[1..]);
      if paths[0] in disk {
        NewMemberIsFile(truncate, paths[0], disk[paths[0]]);
      }
    }
  }

  /** Replace misses the position just when no member that uses up no argument has its name. Otherwise every member becomes
      what its argument makes of it and stays in its place, and the files of the arguments left over are new members, at the
      position or, without one, at the end. It reports a failure just when an argument is no file. */
  lemma ReplaceOutcome(o: Options, position: string, disk: map<string, Disk>, ms: seq<Member>, argv: seq<string>,
                       claims: seq<Option<nat>>) returns (q: nat, now: seq<Member>, added: seq<Member>)
    requires AreDated(ms) && AreClaims(o.truncate, ms, argv, claims)
    ensures |now| == |ms| && forall k :: 0 <= k < |ms| ==> Becomes(o, disk, argv, ms[k], claims[k], now[k])
    ensures AreFiles(o.truncate, disk, Where(argv, LeftOver(|argv|, claims)), added)
    ensures var p := Replace'(o, position, disk, ms, argv, false, o.after || o.before);
      && (p.mods <==> IsMissed(o, position, ms, claims))
      && (!p.mods ==>
            && IsSplit(o, position, ms, claims, q) && q <= |ms|
            && ReplacedArchive(o, p, Added(o.truncate, disk, p.left)) == (now[..q] + added) + now[q..])
      && (p.failed || AnyMissing(disk, p.left) <==> exists j :: 0 <= j < |argv| && argv[j] !in disk)
  {
    hide Names, IsFree, IsClaim, Where, IsSplit, IsMissed, FirstPlace, Becomes, AreFiles, Added, Replace', AreClaims, Delete';
    var free, sought := seq(|argv|, _ => true), o.after || o.before;
    OnlyClaims(o.truncate, ms, argv, claims);
    AllMarked(argv);
    var p := Replace'(o, position, disk, ms, argv, false, sought);
    ReplaceSplits(o, position, disk, ms, argv, free, sought);
    ReplaceKeepsOrder(o, position, disk, ms, argv, false, sought);
    DeleteOutcome(o.truncate, ms, argv, claims);
    FailuresAre(o, position, disk, ms, argv, false, sought);
    PlaceSplits(o, position, ms, claims);
    AddedAreFiles(o.truncate, disk, p.left);
    q, now, added := PlaceOf(o, position, ms, claims, sought), InPlace(o, disk, ms, argv), Added(o.truncate, disk, p.left);
    forall k | 0 <= k < |ms| ensures Becomes(o, disk, argv, ms[k], claims[k], now[k]) {
      InPlaceBecomes(o, disk, ms, argv, free, k);
    }
    TakeDropMembers(p.before, p.after);
    assert added + [] == added && now[q..] == p.after;
    AllInFront(p.before, added);
  }

  lemma AllInFront(before: seq<Member>, added: seq<Member>)
    ensures before + (added + []) == (before + added) + [] && before + ([] + added) == (before + added) + []
  {
    assert added + [] == added && [] + added == added;
  }

  lemma TakeDropMembers(a: seq<Member>, b: seq<Member>)
    ensures (a + b)[..|a|] == a && (a + b)[|a|..] == b
  {
  }
}
