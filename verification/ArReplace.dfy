/** Replacing and adding members (cctools/ar/replace.c). */
module ArReplace {
  import opened ArFormat
  import opened ArObject
  import opened ArOperations
  import opened Wrappers

  /** A file on the disk: what its header would say, when it was changed, and its bytes. */
  datatype Disk = Disk(stamp: string, mtime: int, data: string)

  predicate AreStamped(disk: map<string, Disk>) {
    forall path :: path in disk ==> |disk[path].stamp| == 32
  }

  /** All files named make members that can be read back. */
  predicate AreStorable(truncate: bool, disk: map<string, Disk>, argv: seq<string>) {
    forall path :: path in argv && path in disk ==> IsMember(NewMember(truncate, path, disk[path].stamp, disk[path].data))
  }

  /** The date of a member. */
  function DateOf(stamp: string): nat
    requires |stamp| == 32
  {
    LeadingNumber(stamp[..12])
  }

  /** The member that takes the place of one, unless the file is missing or not newer. */
  function Replacement(o: Options, disk: map<string, Disk>, stamp: string, path: string): Option<Member>
    requires |stamp| == 32
  {
    if path !in disk || (o.update && disk[path].mtime <= DateOf(stamp)) then None
    else Some(NewMember(o.truncate, path, disk[path].stamp, disk[path].data))
  }

  function Swapped(o: Options, disk: map<string, Disk>, m: Member, path: string): Member
    requires |m.stamp| == 32
  {
    var r := Replacement(o, disk, m.stamp, path);
    if r.Some? then r.value else m
  }

  predicate AreDated(ms: seq<Member>) {
    forall m :: m in ms ==> |m.stamp| == 32
  }

  /** The members before and after the position, the arguments that named none, whether the position is still sought,
      and whether a file could not be opened. */
  datatype Replaced = Replaced(before: seq<Member>, after: seq<Member>, left: seq<string>, mods: bool, failed: bool)

  function Replace'(o: Options, position: string, disk: map<string, Disk>, ms: seq<Member>, argv: seq<string>,
                    inAfter: bool, mods: bool): Replaced
    requires AreDated(ms)
  {
    if ms == [] then Replaced([], [], argv, mods, false) else
      var m, i := ms[0], FirstMatch(o.truncate, ms[0].name, argv);
      if i < |argv| then
        var x := Swapped(o, disk, m, argv[i]);
        var p := Replace'(o, position, disk, ms[1..], Without(argv, i), inAfter, mods);
        Onto(p.(failed := p.failed || argv[i] !in disk), inAfter, x)
      else
        var here := mods && Matches(o.truncate, m.name, position);
        var into := InAfter(o, position, m.name, inAfter, mods);
        Onto(Replace'(o, position, disk, ms[1..], argv, into || (here && o.after), mods && !here), into, m)
  }

  function Onto(p: Replaced, into: bool, m: Member): Replaced {
    if into then p.(after := [m] + p.after) else p.(before := [m] + p.before)
  }

  /** The files that are added at the end, and whether one could not be opened. */
  function Added(truncate: bool, disk: map<string, Disk>, paths: seq<string>): seq<Member> {
    if paths == [] then []
    else if paths[0] in disk then
      [NewMember(truncate, paths[0], disk[paths[0]].stamp, disk[paths[0]].data)] + Added(truncate, disk, paths[1..])
    else Added(truncate, disk, paths[1..])
  }

  predicate AnyMissing(disk: map<string, Disk>, paths: seq<string>) {
    exists path :: path in paths && path !in disk
  }

  // ---------------------------------------------------------------- what replacing means

  /** Every member with its replacement in its place. */
  function InPlace(o: Options, disk: map<string, Disk>, ms: seq<Member>, argv: seq<string>): (r: seq<Member>)
    requires AreDated(ms)
    ensures |r| == |ms|
  {
    if ms == [] then [] else
      var i := FirstMatch(o.truncate, ms[0].name, argv);
      if i < |argv| then [Swapped(o, disk, ms[0], argv[i])] + InPlace(o, disk, ms[1..], Without(argv, i))
      else [ms[0]] + InPlace(o, disk, ms[1..], argv)
  }

  lemma {:induction false} ReplaceInAfter(o: Options, position: string, disk: map<string, Disk>, ms: seq<Member>,
                                          argv: seq<string>, inAfter: bool, mods: bool)
    requires AreDated(ms) && inAfter
    ensures Replace'(o, position, disk, ms, argv, inAfter, mods).before == []
  {
    hide Matches, FirstMatch, Swapped;
    if ms != [] {
      var i := FirstMatch(o.truncate, ms[0].name, argv);
      if i < |argv| {
        ReplaceInAfter(o, position, disk, ms[1..], Without(argv, i), inAfter, mods);
      } else {
        ReplaceInAfter(o, position, disk, ms[1..], argv, true, mods && !Matches(o.truncate, ms[0].name, position));
      }
    }
  }

  /** Members are replaced where they stand, and all others stay, in order; only the place where new members are added
      depends on the position. */
  lemma {:induction false} ReplaceKeepsOrder(o: Options, position: string, disk: map<string, Disk>, ms: seq<Member>,
                                             argv: seq<string>, inAfter: bool, mods: bool)
    requires AreDated(ms)
    ensures var p := Replace'(o, position, disk, ms, argv, inAfter, mods);
      p.before + p.after == InPlace(o, disk, ms, argv) && p.left == Delete'(o.truncate, ms, argv).left
  {
    hide Matches, FirstMatch, Swapped;
    if ms != [] {
      var m, i := ms[0], FirstMatch(o.truncate, ms[0].name, argv);
      if i < |argv| {
        var p := Replace'(o, position, disk, ms[1..], Without(argv, i), inAfter, mods);
        ReplaceKeepsOrder(o, position, disk, ms[1..], Without(argv, i), inAfter, mods);
        if inAfter {
          ReplaceInAfter(o, position, disk, ms[1..], Without(argv, i), inAfter, mods);
        }
        InFront(Swapped(o, disk, m, argv[i]), p.before, p.after);
      } else {
        var here := mods && Matches(o.truncate, m.name, position);
        var into := InAfter(o, position, m.name, inAfter, mods);
        var next := into || (here && o.after);
        var p := Replace'(o, position, disk, ms[1..], argv, next, mods && !here);
        ReplaceKeepsOrder(o, position, disk, ms[1..], argv, next, mods && !here);
        if next {
          ReplaceInAfter(o, position, disk, ms[1..], argv, next, mods && !here);
        }
        InFront(m, p.before, p.after);
      }
    }
  }

  /** Member k is the position: it has that name, no argument that the members before it left over names it, and none
      of the members before it that were not replaced has the name. */
  predicate IsPosition(truncate: bool, position: string, ms: seq<Member>, argv: seq<string>, k: nat) {
    && k < |ms| && Matches(truncate, ms[k].name, position)
    && var d := Delete'(truncate, ms[..k], argv);
       FirstMatch(truncate, ms[k].name, d.left) == |d.left| && NoneMatches(truncate, d.kept, position)
  }

  /** The members are split right before or right after the position; it is missing exactly when no member that was not
      replaced has its name. */
  lemma {:induction false} ReplacePosition(o: Options, position: string, disk: map<string, Disk>, ms: seq<Member>,
                                           argv: seq<string>)
    requires AreDated(ms) && o.before != o.after
    ensures var p := Replace'(o, position, disk, ms, argv, false, true);
      && (p.mods <==> NoneMatches(o.truncate, Delete'(o.truncate, ms, argv).kept, position))
      && (!p.mods ==> |p.before| >= (if o.after then 1 else 0)
                      && IsPosition(o.truncate, position, ms, argv, |p.before| - if o.after then 1 else 0))
  {
    hide Matches, FirstMatch, Swapped, NoneMatches, IsPosition, Replace', Delete';
    if ms == [] {
      NobodyMatches(o, position, disk, argv);
    } else {
      var i := FirstMatch(o.truncate, ms[0].name, argv);
      var argv' := if i < |argv| then Without(argv, i) else argv;
      if i == |argv| && Matches(o.truncate, ms[0].name, position) {
        PositionHere(o, position, disk, ms, argv);
      } else {
        var p := Replace'(o, position, disk, ms[1..], argv', false, true);
        ReplacePosition(o, position, disk, ms[1..], argv');
        PositionElsewhere(o, position, disk, ms, argv);
        if !p.mods {
          PositionLater(o.truncate, position, ms, argv, |p.before| - if o.after then 1 else 0);
        }
      }
    }
  }

  lemma PositionElsewhere(o: Options, position: string, disk: map<string, Disk>, ms: seq<Member>, argv: seq<string>)
    requires AreDated(ms) && ms != []
    requires FirstMatch(o.truncate, ms[0].name, argv) == |argv| ==> !Matches(o.truncate, ms[0].name, position)
    ensures var i := FirstMatch(o.truncate, ms[0].name, argv);
      var argv' := if i < |argv| then Without(argv, i) else argv;
      var p, p' := Replace'(o, position, disk, ms, argv, false, true), Replace'(o, position, disk, ms[1..], argv', false, true);
      && p.mods == p'.mods && |p.before| == |p'.before| + 1
      && (NoneMatches(o.truncate, Delete'(o.truncate, ms, argv).kept, position)
          <==> NoneMatches(o.truncate, Delete'(o.truncate, ms[1..], argv').kept, position))
  {
    hide Matches, FirstMatch, Swapped, NoneMatches;
    if FirstMatch(o.truncate, ms[0].name, argv) == |argv| {
      NotFirst(o.truncate, ms[0], Delete'(o.truncate, ms[1..], argv).kept, position);
    }
  }

  /** A position that is replaced itself is not found. */
  lemma MissedReplacedPositionExample(o: Options, disk: map<string, Disk>, m: Member)
    requires o.before != o.after && m.name == "a" && |m.stamp| == 32
    ensures Replace'(o, "a", disk, [m], ["a"], false, true).mods
  {
    assert Rname("a") == "a";
    assert FirstMatch(o.truncate, m.name, ["a"]) == 0;
    assert [m][1..] == [];
  }

  lemma NobodyMatches(o: Options, position: string, disk: map<string, Disk>, argv: seq<string>)
    ensures Replace'(o, position, disk, [], argv, false, true).mods
    ensures NoneMatches(o.truncate, Delete'(o.truncate, [], argv).kept, position)
  {
  }

  lemma PositionHere(o: Options, position: string, disk: map<string, Disk>, ms: seq<Member>, argv: seq<string>)
    requires AreDated(ms) && o.before != o.after && ms != []
    requires FirstMatch(o.truncate, ms[0].name, argv) == |argv| && Matches(o.truncate, ms[0].name, position)
    ensures var p := Replace'(o, position, disk, ms, argv, false, true);
      && !p.mods && |p.before| == (if o.after then 1 else 0)
      && !NoneMatches(o.truncate, Delete'(o.truncate, ms, argv).kept, position)
      && IsPosition(o.truncate, position, ms, argv, 0)
  {
    hide Matches, FirstMatch, Swapped;
    assert Delete'(o.truncate, ms, argv).kept[0] == ms[0];
    ReplaceInAfter(o, position, disk, ms[1..], argv, true, false);
    ReplaceFound(o, position, disk, ms[1..], argv, true);
    assert ms[..0] == [];
  }

  lemma {:induction false} ReplaceFound(o: Options, position: string, disk: map<string, Disk>, ms: seq<Member>,
                                        argv: seq<string>, inAfter: bool)
    requires AreDated(ms)
    ensures !Replace'(o, position, disk, ms, argv, inAfter, false).mods
  {
    hide Matches, FirstMatch, Swapped;
    if ms != [] {
      var i := FirstMatch(o.truncate, ms[0].name, argv);
      ReplaceFound(o, position, disk, ms[1..], if i < |argv| then Without(argv, i) else argv, inAfter);
    }
  }

  lemma PositionLater(truncate: bool, position: string, ms: seq<Member>, argv: seq<string>, k: nat)
    requires ms != []
    requires var i := FirstMatch(truncate, ms[0].name, argv);
      && (i == |argv| ==> !Matches(truncate, ms[0].name, position))
      && IsPosition(truncate, position, ms[1..], if i < |argv| then Without(argv, i) else argv, k)
    ensures IsPosition(truncate, position, ms, argv, k + 1)
  {
    hide Matches, FirstMatch;
    assert ms[..k + 1][1..] == ms[1..][..k] && ms[..k + 1][0] == ms[0];
    if FirstMatch(truncate, ms[0].name, argv) == |argv| {
      NotFirst(truncate, ms[0], Delete'(truncate, ms[1..][..k], argv).kept, position);
    }
  }

  lemma InFront(m: Member, a: seq<Member>, b: seq<Member>)
    ensures ([m] + a) + b == [m] + (a + b)
    ensures a == [] ==> a + ([m] + b) == [m] + (a + b)
  {
  }

  // ---------------------------------------------------------------- the program

  /** What is in the temporary files and what the rest will give make the result. */
  predicate ReplaceGoesOn(o: Options, position: string, disk: map<string, Disk>, rest: seq<Member>, argv: seq<string>,
                          inAfter: bool, mods: bool, failed: bool, t1: seq<Member>, t2: seq<Member>, result: Replaced)
    requires AreDated(rest)
  {
    var p := Replace'(o, position, disk, rest, argv, inAfter, mods);
    result == Replaced(t1 + p.before, t2 + p.after, p.left, p.mods, failed || p.failed)
  }

  lemma ReplaceStep(o: Options, position: string, disk: map<string, Disk>, rest: seq<Member>, argv: seq<string>,
                    inAfter: bool, mods: bool, failed: bool, t1: seq<Member>, t2: seq<Member>, result: Replaced)
    requires rest != [] && AreDated(rest)
    requires ReplaceGoesOn(o, position, disk, rest, argv, inAfter, mods, failed, t1, t2, result)
    ensures var m, i := rest[0], FirstMatch(o.truncate, rest[0].name, argv);
      var here := mods && Matches(o.truncate, m.name, position);
      var into := InAfter(o, position, m.name, inAfter, mods);
      if i < |argv| then
        var x := Swapped(o, disk, m, argv[i]);
        ReplaceGoesOn(o, position, disk, rest[1..], Without(argv, i), inAfter, mods, failed || argv[i] !in disk,
                      if inAfter then t1 else t1 + [x], if inAfter then t2 + [x] else t2, result)
      else
        ReplaceGoesOn(o, position, disk, rest[1..], argv, into || (here && o.after), mods && !here, failed,
                      if into then t1 else t1 + [m], if into then t2 + [m] else t2, result)
  {
    hide Matches, FirstMatch, Swapped, Without;
    assert forall t: seq<Member>, x: Member, p: seq<Member> :: (t + [x]) + p == t + ([x] + p);
  }

  /** Puts a file of the disk into a temporary file. */
  method AddFile(tmp: File, truncate: bool, path: string, d: Disk, ghost kept: seq<Member>) returns (ok: bool)
    requires tmp.Valid() && tmp.offset == |tmp.bytes| && |d.stamp| == 32
    modifies tmp
    ensures ok && tmp.Valid() && tmp.offset == |tmp.bytes|
    ensures var m := NewMember(truncate, path, d.stamp, d.data);
      IsMember(m) && Encodes(old(tmp.bytes), kept) ==> Encodes(tmp.bytes, kept + [m])
  {
    hide Encode, IsMember, EncodeAll, NewMember;
    ghost var m := NewMember(truncate, path, d.stamp, d.data);
    if IsMember(m) && AreMembers(kept) {
      EncodeSnoc(kept, m);
    }
    ok := PutFile(tmp, truncate, path, d.stamp, d.data);
  }

  /** A member that an argument names: the file takes its place, or it stays. */
  method SwapMember(f: File, tmp: File, o: Options, disk: map<string, Disk>, path: string, c: Current,
                    ghost ms: seq<Member>, ghost kept: seq<Member>) returns (ok: bool, failed: bool)
    requires f != tmp && f.Valid() && tmp.Valid() && tmp.offset == |tmp.bytes| && AreStamped(disk)
    requires |c.hb| == HEADER_SIZE && (c.lname > 0 ==> |c.name| == c.lname) && |c.stamp| == 32
    modifies f`offset, tmp
    ensures f.Valid() && tmp.Valid() && (ok ==> tmp.offset == |tmp.bytes|) && failed == (path !in disk)
    ensures |f.Unread()| <= |old(f.Unread())|
    ensures IsCurrent(old(f.Unread()), c, ms) ==> ok && Encodes(f.Unread(), ms[1..])
    ensures IsCurrent(old(f.Unread()), c, ms) && Encodes(old(tmp.bytes), kept) && AreStorable(o.truncate, disk, [path]) ==>
      |ms[0].stamp| == 32 && Encodes(tmp.bytes, kept + [Swapped(o, disk, ms[0], path)])
  {
    hide IsMember, Encodes, NewMember, Body, Header;
    failed := path !in disk;
    if failed {
      ok := KeepMember(f, tmp, c, ms, kept);
      return;
    }
    var d := disk[path];
    if o.update && d.mtime <= DateOf(c.stamp) {
      ok := KeepMember(f, tmp, c, ms, kept);
      return;
    }
    assert path in [path];
    ok := AddFile(tmp, o.truncate, path, d, kept);
    SkipMember(f, c, ms);
  }

  /** Breaks an archive into the entries before and after the position, with files in the place of those named. */
  method ReplaceMembers(f: File, o: Options, position: string, disk: map<string, Disk>, argv: array<string>, t1: File, t2: File,
                        ghost ms: seq<Member>)
    returns (ok: bool, count: nat, mods: bool, failed: bool, ghost p: Replaced)
    requires f.Valid() && t1.bytes == t2.bytes == "" && t1.Valid() && t2.Valid() && AreStamped(disk)
    requires f != t1 && f != t2 && t1 != t2 && AreDated(ms)
    modifies f`offset, argv, t1, t2
    ensures f.Valid() && t1.Valid() && t2.Valid() && (ok ==> t1.offset == |t1.bytes| && t2.offset == |t2.bytes|)
    ensures p == Replace'(o, position, disk, ms, old(argv[..]), false, o.after || o.before) && count <= argv.Length
    ensures Encodes(old(f.Unread()), ms) && AreStorable(o.truncate, disk, old(argv[..])) ==>
      && ok && argv[..count] == p.left && mods == p.mods && failed == p.failed
      && AreStorable(o.truncate, disk, p.left) && Encodes(t1.bytes, p.before) && Encodes(t2.bytes, p.after)
  {
    hide Matches, NameOf, Without, FirstMatch, IsCurrent, Encodes, ReplaceGoesOn, Replace', InAfter, Swapped, AreStorable;
    ghost var known := Encodes(f.Unread(), ms) && AreStorable(o.truncate, disk, argv[..]);
    var inAfter := false;
    mods, failed := o.after || o.before, false;
    p := Replace'(o, position, disk, ms, argv[..], inAfter, mods);
    ReplaceStarts(o, position, disk, ms, argv[..], inAfter, mods);
    count := argv.Length;
    ghost var rest, m1, m2, args := ms, [], [], argv[..];
    NothingEncoded();
    while true
      invariant f.Valid() && t1.Valid() && t2.Valid() && t1.offset == |t1.bytes| && t2.offset == |t2.bytes|
      invariant 0 <= count <= argv.Length && args == argv[..count] && AreDated(rest)
      invariant known ==> Encodes(f.Unread(), rest) && AreStorable(o.truncate, disk, args)
      invariant known ==> Encodes(t1.bytes, m1) && Encodes(t2.bytes, m2)
      invariant known ==> ReplaceGoesOn(o, position, disk, rest, args, inAfter, mods, failed, m1, m2, p)
      decreases |f.Unread()|
    {
      var status, c := NextMember(f, rest);
      if status.End? {
        break;
      }
      if status.BadFormat? {
        return false, count, mods, failed, p;
      }
      if known {
        CurrentName(f.Unread(), c, rest);
        ReplaceStep(o, position, disk, rest, args, inAfter, mods, failed, m1, m2, p);
      }
      var found;
      ghost var i := FirstMatch(o.truncate, NameOf(c), args);
      found, count := Files(o.truncate, NameOf(c), argv, count);
      if found.Some? {
        var missing;
        if known {
          OneStorable(o.truncate, disk, args, i);
        }
        ok, missing := SwapOnSide(f, t1, t2, inAfter, o, disk, found.value, c, rest, m1, m2);
        ghost var x := if known then Swapped(o, disk, rest[0], found.value) else Member("", 0, "", "");
        m1 := if known && !inAfter then m1 + [x] else m1;
        m2 := if known && inAfter then m2 + [x] else m2;
        failed := failed || missing;
      } else {
        ghost var into := InAfter(o, position, NameOf(c), inAfter, mods);
        ok, inAfter, mods := PlaceMember(f, t1, t2, o, position, inAfter, mods, c, rest, m1, m2);
        m1 := if known && !into then m1 + [rest[0]] else m1;
        m2 := if known && into then m2 + [rest[0]] else m2;
      }
      args := argv[..count];
      if !ok {
        return false, count, mods, failed, p;
      }
      rest := if known then rest[1..] else rest;
    }
    if known {
      ReplaceNothing(o, position, disk, args, inAfter, mods, failed, m1, m2, p);
    }
    ok := true;
  }

  lemma ReplaceStarts(o: Options, position: string, disk: map<string, Disk>, ms: seq<Member>, argv: seq<string>,
                      inAfter: bool, mods: bool)
    requires AreDated(ms)
    ensures ReplaceGoesOn(o, position, disk, ms, argv, inAfter, mods, false, [], [],
                          Replace'(o, position, disk, ms, argv, inAfter, mods))
  {
    hide Replace';
  }

  lemma ReplaceNothing(o: Options, position: string, disk: map<string, Disk>, args: seq<string>, inAfter: bool, mods: bool,
                       failed: bool, m1: seq<Member>, m2: seq<Member>, result: Replaced)
    requires ReplaceGoesOn(o, position, disk, [], args, inAfter, mods, failed, m1, m2, result)
    ensures result == Replaced(m1, m2, args, mods, failed)
  {
  }

  lemma OneStorable(truncate: bool, disk: map<string, Disk>, argv: seq<string>, i: nat)
    requires AreStorable(truncate, disk, argv)
    ensures i < |argv| ==> AreStorable(truncate, disk, [argv[i]]) && AreStorable(truncate, disk, Without(argv, i))
  {
    hide IsMember;
  }

  /** Swaps a member on its side of the position. */
  method SwapOnSide(f: File, t1: File, t2: File, inAfter: bool, o: Options, disk: map<string, Disk>, path: string, c: Current,
                    ghost ms: seq<Member>, ghost m1: seq<Member>, ghost m2: seq<Member>) returns (ok: bool, failed: bool)
    requires f != t1 && f != t2 && t1 != t2 && f.Valid() && t1.Valid() && t2.Valid() && AreStamped(disk)
    requires t1.offset == |t1.bytes| && t2.offset == |t2.bytes|
    requires |c.hb| == HEADER_SIZE && (c.lname > 0 ==> |c.name| == c.lname) && |c.stamp| == 32
    modifies f`offset, t1, t2
    ensures f.Valid() && t1.Valid() && t2.Valid() && failed == (path !in disk)
    ensures ok ==> t1.offset == |t1.bytes| && t2.offset == |t2.bytes|
    ensures |f.Unread()| <= |old(f.Unread())|
    ensures IsCurrent(old(f.Unread()), c, ms) ==> ok && Encodes(f.Unread(), ms[1..]) && |ms[0].stamp| == 32
    ensures IsCurrent(old(f.Unread()), c, ms) && AreStorable(o.truncate, disk, [path]) ==>
      var x := Swapped(o, disk, ms[0], path);
      && (Encodes(old(t1.bytes), m1) ==> Encodes(t1.bytes, if inAfter then m1 else m1 + [x]))
      && (Encodes(old(t2.bytes), m2) ==> Encodes(t2.bytes, if inAfter then m2 + [x] else m2))
  {
    hide Encodes, Swapped, AreStorable;
    if inAfter {
      ok, failed := SwapMember(f, t2, o, disk, path, c, ms, m2);
    } else {
      ok, failed := SwapMember(f, t1, o, disk, path, c, ms, m1);
    }
  }

  /** Adds the files that named no member. */
  method AddFiles(tmp: File, truncate: bool, disk: map<string, Disk>, argv: array<string>, count: nat, ghost kept: seq<Member>)
    returns (failed: bool)
    requires tmp.Valid() && tmp.offset == |tmp.bytes| && count <= argv.Length && AreStamped(disk)
    modifies tmp
    ensures tmp.Valid() && failed == AnyMissing(disk, argv[..count])
    ensures Encodes(old(tmp.bytes), kept) && AreStorable(truncate, disk, argv[..count]) ==>
      Encodes(tmp.bytes, kept + Added(truncate, disk, argv[..count]))
  {
    hide IsMember, Encodes, NewMember;
    ghost var known := Encodes(tmp.bytes, kept) && AreStorable(truncate, disk, argv[..count]);
    failed := false;
    ghost var now := kept;
    var i := 0;
    while i < count
      invariant 0 <= i <= count && tmp.Valid() && tmp.offset == |tmp.bytes|
      invariant failed == AnyMissing(disk, argv[..i])
      invariant known ==> Encodes(tmp.bytes, now) && kept + Added(truncate, disk, argv[..count]) == now + Added(truncate, disk, argv[i..count])
    {
      assert argv[i..count][1..] == argv[i + 1..count];
      MissingSnoc(disk, argv[..i], argv[i]);
      assert argv[..i + 1] == argv[..i] + [argv[i]];
      if argv[i] in disk {
        var d := disk[argv[i]];
        assert known ==> argv[i] in argv[..count];
        var ok := AddFile(tmp, truncate, argv[i], d, now);
        now := now + [NewMember(truncate, argv[i], d.stamp, d.data)];
      } else {
        failed := true;
      }
      i := i + 1;
    }
    assert argv[count..count] == [] && now + [] == now;
  }

  lemma MissingSnoc(disk: map<string, Disk>, paths: seq<string>, path: string)
    ensures AnyMissing(disk, paths + [path]) <==> AnyMissing(disk, paths) || path !in disk
  {
    if AnyMissing(disk, paths) {
      var p :| p in paths && p !in disk;
      assert p in paths + [path];
    }
    if path !in disk {
      assert path in paths + [path];
    }
  }

  /** Adds them before the position's other side, or at the end. */
  method AddOnSide(t1: File, t2: File, toFirst: bool, truncate: bool, disk: map<string, Disk>, argv: array<string>, count: nat,
                   ghost m1: seq<Member>, ghost m2: seq<Member>) returns (failed: bool)
    requires t1 != t2 && t1.Valid() && t2.Valid() && t1.offset == |t1.bytes| && t2.offset == |t2.bytes|
    requires count <= argv.Length && AreStamped(disk)
    modifies t1, t2
    ensures t1.Valid() && t2.Valid() && failed == AnyMissing(disk, argv[..count])
    ensures Encodes(old(t1.bytes), m1) && Encodes(old(t2.bytes), m2) && AreStorable(truncate, disk, argv[..count]) ==>
      var added := Added(truncate, disk, argv[..count]);
      && Encodes(t1.bytes, if toFirst then m1 + added else m1)
      && Encodes(t2.bytes, if toFirst then m2 else m2 + added)
  {
    hide Encodes, AreStorable, Added, AnyMissing;
    if toFirst {
      failed := AddFiles(t1, truncate, disk, argv, count, m1);
    } else {
      failed := AddFiles(t2, truncate, disk, argv, count, m2);
    }
  }

  /** Puts two temporary files together after the magic string of the archive. */
  method RejoinTwo(f: File, t1: File, t2: File)
    requires f != t1 && f != t2 && t1 != t2 && t1.Valid() && t2.Valid() && |f.bytes| >= |ARMAG|
    modifies f, t1`offset, t2`offset
    ensures f.bytes == (old(f.bytes)[..|ARMAG|] + t1.bytes) + t2.bytes
  {
    f.Seek(|ARMAG|);
    CopyOver(t1, f);
    CopyOver(t2, f);
    f.Truncate(f.offset);
  }

  lemma TwoParts(bytes: string, ms: seq<Member>, b1: string, b2: string, m1: seq<Member>, m2: seq<Member>)
    requires IsArchiveOf(bytes, ms) && Encodes(b1, m1) && Encodes(b2, m2)
    ensures |bytes| >= |ARMAG| && IsArchiveOf((bytes[..|ARMAG|] + b1) + b2, m1 + m2)
  {
    OpenedArchive(bytes, ms);
    MagicOf(bytes, ms);
    EncodeAllConcat(m1, m2);
    assert AreMembers(m1 + m2);
    hide *;
    TwoPartsOf(b1, b2, m1, m2);
  }

  lemma TwoPartsOf(b1: string, b2: string, m1: seq<Member>, m2: seq<Member>)
    requires Encodes(b1, m1) && Encodes(b2, m2) && AreMembers(m1 + m2) && EncodeAll(m1 + m2) == EncodeAll(m1) + EncodeAll(m2)
    ensures IsArchiveOf((ARMAG + b1) + b2, m1 + m2)
  {
    hide EncodeAll, AreMembers;
    assert (ARMAG + b1) + b2 == ARMAG + (b1 + b2);
  }

  /** The members of an archive after a replacement. */
  function ReplacedArchive(o: Options, p: Replaced, added: seq<Member>): seq<Member> {
    if o.after || o.before then (p.before + added) + p.after else p.before + (p.after + added)
  }

  /** replace, of an archive that exists. When the position is not found nothing is written. */
  method Replace(f: File, o: Options, position: string, disk: map<string, Disk>, argv: array<string>, ghost ms: seq<Member>)
    returns (code: Option<int>)
    requires f.offset == 0 && AreStamped(disk)
    modifies f, argv
    ensures code.None? ==> f.bytes == old(f.bytes)
    ensures IsArchiveOf(old(f.bytes), ms) && AreStorable(o.truncate, disk, old(argv[..])) ==>
      AreDated(ms) &&
      var p := Replace'(o, position, disk, ms, old(argv[..]), false, o.after || o.before);
      if p.mods then code == Some(1) && f.bytes == old(f.bytes)
      else
        && code == Some(if p.failed || AnyMissing(disk, p.left) then 1 else 0)
        && IsArchiveOf(f.bytes, ReplacedArchive(o, p, Added(o.truncate, disk, p.left)))
  {
    hide Encodes, Replace', IsArchiveOf, AreStorable, Added, AnyMissing;
    ghost var known := IsArchiveOf(f.bytes, ms) && AreStorable(o.truncate, disk, argv[..]);
    var ok := OpenArchive(f);
    if known {
      OpenedArchive(f.bytes, ms);
      ArchiveIsDated(f.bytes, ms);
    }
    if !ok {
      return None;
    }
    var t1 := new File("");
    var t2 := new File("");
    var count, mods, failed;
    ghost var p;
    ok, count, mods, failed, p := ReplaceMembers(f, o, position, disk, argv, t1, t2, if known then ms else []);
    if !ok {
      return None;
    }
    if mods {
      return Some(1);
    }
    var missing := AddOnSide(t1, t2, o.after || o.before, o.truncate, disk, argv, count, p.before, p.after);
    if known {
      ghost var added, first := Added(o.truncate, disk, p.left), o.after || o.before;
      TwoParts(f.bytes, ms, t1.bytes, t2.bytes, if first then p.before + added else p.before, if first then p.after else p.after + added);
    }
    RejoinTwo(f, t1, t2);
    code := Some(if failed || missing then 1 else 0);
  }

  lemma ArchiveIsDated(bytes: string, ms: seq<Member>)
    requires IsArchiveOf(bytes, ms)
    ensures AreDated(ms)
  {
  }
}
