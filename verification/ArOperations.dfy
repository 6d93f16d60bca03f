/** Deleting, moving and replacing members (cctools/ar/delete.c, move.c, replace.c, misc.c). */
module ArOperations {
  import opened ArFormat
  import opened ArObject
  import opened Wrappers

  /** The options that matter here: the position is after or before a member, names are cut to fifteen characters,
      and only newer files replace members. */
  datatype Options = Options(after: bool, before: bool, truncate: bool, update: bool)

  // ---------------------------------------------------------------- names

  function Cut(s: string): string {
    s[..Lesser(|s|, OLDARMAXNAME)]
  }

  /** compare. */
  predicate Matches(truncate: bool, name: string, path: string) {
    if truncate then Cut(name) == Cut(Rname(path)) else name == Rname(path)
  }

  /** The first argument that names the member, or their number. */
  function FirstMatch(truncate: bool, name: string, argv: seq<string>): (i: nat)
    ensures i <= |argv| && (i < |argv| ==> Matches(truncate, name, argv[i]))
    ensures forall j :: 0 <= j < i ==> !Matches(truncate, name, argv[j])
  {
    if argv == [] || Matches(truncate, name, argv[0]) then 0 else 1 + FirstMatch(truncate, name, argv[1..])
  }

  function Without(argv: seq<string>, i: nat): (r: seq<string>)
    requires i < |argv|
    ensures |r| == |argv| - 1
  {
    argv[..i] + argv[i + 1..]
  }

  /** files: finds the argument that names the member, and closes the gap it leaves. */
  method Files(truncate: bool, name: string, argv: array<string>, count: nat) returns (found: Option<string>, left: nat)
    requires count <= argv.Length
    modifies argv
    ensures left <= count
    ensures var i := FirstMatch(truncate, name, old(argv[..count]));
      if i < count then found == Some(old(argv[i])) && left == count - 1 && argv[..left] == Without(old(argv[..count]), i)
      else found == None && left == count && argv[..left] == old(argv[..count])
  {
    hide Matches;
    ghost var all := argv[..count];
    var list := 0;
    while list < count
      invariant 0 <= list <= count && argv[..count] == all
      invariant forall j :: 0 <= j < list ==> !Matches(truncate, name, all[j])
    {
      if Matches(truncate, name, argv[list]) {
        FirstMatchIs(truncate, name, all, list);
        found := Some(argv[list]);
        CloseGap(argv, count, list);
        return found, count - 1;
      }
      list := list + 1;
    }
    FirstMatchIs(truncate, name, all, count);
    return None, count;
  }

  /** Shifts the arguments after one down by one place. */
  method CloseGap(argv: array<string>, count: nat, i: nat)
    requires i < count <= argv.Length
    modifies argv
    ensures argv[..count - 1] == Without(old(argv[..count]), i)
  {
    ghost var all := argv[..count];
    var gap := i;
    while gap + 1 < count
      invariant i <= gap < count
      invariant forall j :: 0 <= j < i ==> argv[j] == all[j]
      invariant forall j :: i <= j < gap ==> argv[j] == all[j + 1]
      invariant forall j :: gap < j < count ==> argv[j] == all[j]
    {
      argv[gap] := argv[gap + 1];
      gap := gap + 1;
    }
    forall j | 0 <= j < count - 1 ensures argv[j] == Without(all, i)[j] {
    }
  }

  lemma FirstMatchIs(truncate: bool, name: string, argv: seq<string>, i: nat)
    requires i <= |argv| && (forall j :: 0 <= j < i ==> !Matches(truncate, name, argv[j]))
    requires i < |argv| ==> Matches(truncate, name, argv[i])
    ensures FirstMatch(truncate, name, argv) == i
  {
    hide Matches;
  }

  /** The name of the current member as a C string. */
  function NameOf(c: Current): string {
    CString(c.name)
  }

  lemma NameOfMember(m: Member)
    requires IsMember(m)
    ensures NameOf(CurrentOf(m)) == m.name
  {
    if m.padded == 0 {
      CStringOfPadded(m.name, 0);
      assert m.name + Fill('\0', 0) == m.name;
    } else {
      CStringOfPadded(m.name, m.padded - |m.name|);
    }
  }

  // ---------------------------------------------------------------- delete

  /** The members that are kept, and the arguments that named none. */
  datatype Deleted = Deleted(kept: seq<Member>, left: seq<string>)

  function Delete'(truncate: bool, ms: seq<Member>, argv: seq<string>): Deleted {
    if ms == [] then Deleted([], argv) else
      var i := FirstMatch(truncate, ms[0].name, argv);
      if i < |argv| then Delete'(truncate, ms[1..], Without(argv, i))
      else
        var d := Delete'(truncate, ms[1..], argv);
        Deleted([ms[0]] + d.kept, d.left)
  }

  /** Opens an archive: the magic string must be there. */
  method OpenArchive(f: File) returns (ok: bool)
    requires f.offset == 0
    modifies f`offset
    ensures f.Valid() && ok == IsPrefix(ARMAG, f.bytes) && (ok ==> f.offset == |ARMAG|)
  {
    var magic := f.Read(|ARMAG|);
    ok := magic == ARMAG;
  }

  /** Copies what a temporary file holds over the archive, from the current place on. */
  method CopyOver(tmp: File, f: File)
    requires tmp != f && tmp.Valid() && f.Valid()
    modifies tmp`offset, f
    ensures f.Valid() && f.bytes[..f.offset] == old(f.bytes)[..old(f.offset)] + tmp.bytes
  {
    hide Overwritten;
    tmp.Seek(0);
    WholeFile(tmp.bytes);
    ghost var before := f.bytes;
    var ok := CopyAr(tmp, f, |tmp.bytes|, false, false, 0, 0);
    assert tmp.bytes[..|tmp.bytes|] + "" == tmp.bytes;
    OverwrittenStart(before, old(f.offset), tmp.bytes);
  }

  /** Puts three temporary files together after the magic string of the archive. */
  method Rejoin(f: File, t1: File, t2: File, t3: File)
    requires f != t1 && f != t2 && f != t3 && t1 != t2 && t1 != t3 && t2 != t3
    requires t1.Valid() && t2.Valid() && t3.Valid() && |f.bytes| >= |ARMAG|
    modifies f, t1`offset, t2`offset, t3`offset
    ensures f.bytes == ((old(f.bytes)[..|ARMAG|] + t1.bytes) + t2.bytes) + t3.bytes
  {
    f.Seek(|ARMAG|);
    CopyOver(t1, f);
    CopyOver(t2, f);
    CopyOver(t3, f);
    f.Truncate(f.offset);
  }

  lemma OverwrittenStart(bytes: string, offset: nat, s: string)
    requires offset <= |bytes|
    ensures Overwritten(bytes, offset, s)[..offset + |s|] == bytes[..offset] + s
  {
  }

  /** The bytes are those of these members. */
  predicate Encodes(bytes: string, ms: seq<Member>) {
    AreMembers(ms) && bytes == EncodeAll(ms)
  }

  /** The header of the first of these members has been read. */
  predicate IsCurrent(unread: string, c: Current, ms: seq<Member>) {
    ms != [] && AreMembers(ms) && c == CurrentOf(ms[0]) && unread == Body(ms[0]) + EncodeAll(ms[1..])
  }

  /** Reads the next header. */
  method NextMember(f: File, ghost ms: seq<Member>) returns (status: Status, c: Current)
    requires f.Valid()
    modifies f`offset
    ensures f.Valid() && (status.Got? ==> |f.Unread()| < |old(f.Unread())|)
    ensures status.Got? ==> |c.hb| == HEADER_SIZE && |c.stamp| == 32 && (c.lname > 0 ==> |c.name| == c.lname)
    ensures Encodes(old(f.Unread()), ms) ==> if ms == [] then status.End? else status.Got? && IsCurrent(f.Unread(), c, ms)
  {
    hide Encode, CurrentOf, Body, IsMember;
    ghost var known := ms != [] && AreMembers(ms);
    ghost var m := if known then ms[0] else Member("", 0, "", "");
    ghost var rest := if known then EncodeAll(ms[1..]) else "";
    if known {
      EncodedIsNotEmpty(m);
    }
    status, c := GetArobj(f, m, rest);
  }

  lemma EncodedIsNotEmpty(m: Member)
    requires IsMember(m)
    ensures Encode(m) != ""
  {
  }

  /** Copies the current member to a temporary file. */
  method KeepMember(f: File, tmp: File, c: Current, ghost ms: seq<Member>, ghost kept: seq<Member>) returns (ok: bool)
    requires f != tmp && f.Valid() && tmp.Valid() && tmp.offset == |tmp.bytes|
    requires |c.hb| == HEADER_SIZE && (c.lname > 0 ==> |c.name| == c.lname)
    modifies f`offset, tmp
    ensures f.Valid() && tmp.Valid() && (ok ==> tmp.offset == |tmp.bytes|)
    ensures |f.Unread()| <= |old(f.Unread())|
    ensures IsCurrent(old(f.Unread()), c, ms) ==> ok && Encodes(f.Unread(), ms[1..])
    ensures IsCurrent(old(f.Unread()), c, ms) && Encodes(old(tmp.bytes), kept) ==> Encodes(tmp.bytes, kept + [ms[0]])
  {
    hide Encode, CurrentOf, Body, IsMember, EncodeAll;
    ghost var known := ms != [] && AreMembers(ms);
    ghost var m := if known then ms[0] else Member("", 0, "", "");
    ghost var rest := if known then EncodeAll(ms[1..]) else "";
    if known && AreMembers(kept) {
      EncodeSnoc(kept, m);
    }
    ok := PutArobj(f, tmp, c, m, rest);
  }

  /** Copies the current member to one of two temporary files. */
  method KeepOnSide(f: File, t1: File, t3: File, inAfter: bool, c: Current,
                    ghost ms: seq<Member>, ghost m1: seq<Member>, ghost m3: seq<Member>) returns (ok: bool)
    requires f != t1 && f != t3 && t1 != t3 && f.Valid() && t1.Valid() && t3.Valid()
    requires t1.offset == |t1.bytes| && t3.offset == |t3.bytes|
    requires |c.hb| == HEADER_SIZE && (c.lname > 0 ==> |c.name| == c.lname)
    modifies f`offset, t1, t3
    ensures f.Valid() && t1.Valid() && t3.Valid() && (ok ==> t1.offset == |t1.bytes| && t3.offset == |t3.bytes|)
    ensures |f.Unread()| <= |old(f.Unread())|
    ensures IsCurrent(old(f.Unread()), c, ms) ==> ok && Encodes(f.Unread(), ms[1..])
    ensures IsCurrent(old(f.Unread()), c, ms) && Encodes(old(t1.bytes), m1) && Encodes(old(t3.bytes), m3) ==>
      && Encodes(t1.bytes, if inAfter then m1 else m1 + [ms[0]])
      && Encodes(t3.bytes, if inAfter then m3 + [ms[0]] else m3)
  {
    hide IsCurrent, Encodes;
    if inAfter {
      ok := KeepMember(f, t3, c, ms, m3);
    } else {
      ok := KeepMember(f, t1, c, ms, m1);
    }
  }

  /** Skips the current member. */
  method SkipMember(f: File, c: Current, ghost ms: seq<Member>)
    requires f.Valid()
    modifies f`offset
    ensures f.Valid() && |f.Unread()| <= |old(f.Unread())|
    ensures IsCurrent(old(f.Unread()), c, ms) ==> Encodes(f.Unread(), ms[1..])
  {
    hide Encode, CurrentOf, Body, IsMember;
    ghost var known := ms != [] && AreMembers(ms);
    ghost var m := if known then ms[0] else Member("", 0, "", "");
    ghost var rest := if known then EncodeAll(ms[1..]) else "";
    SkipArobj(f, c, m, rest);
  }

  lemma CurrentName(unread: string, c: Current, ms: seq<Member>)
    requires IsCurrent(unread, c, ms)
    ensures NameOf(c) == ms[0].name
  {
    NameOfMember(ms[0]);
  }

  /** delete. Nothing is written before all members have been read. The code is none after a bad format. */
  method Delete(f: File, truncate: bool, argv: array<string>, ghost ms: seq<Member>) returns (code: Option<int>)
    requires f.offset == 0
    modifies f, argv
    ensures code.None? ==> f.bytes == old(f.bytes)
    ensures IsArchiveOf(old(f.bytes), ms) ==>
      var d := Delete'(truncate, ms, old(argv[..]));
      IsArchiveOf(f.bytes, d.kept) && code == Some(if d.left != [] then 1 else 0)
  {
    hide Matches, NameOf, Without, FirstMatch, IsCurrent, Encodes, IsArchiveOf;
    ghost var known := IsArchiveOf(f.bytes, ms);
    ghost var result := Delete'(truncate, ms, argv[..]);
    var ok := OpenArchive(f);
    if known {
      OpenedArchive(f.bytes, ms);
    }
    if !ok {
      return None;
    }
    var tmp := new File("");
    var count := argv.Length;
    ghost var rest, kept, args := ms, [], argv[..];
    NothingEncoded();
    while true
      modifies f`offset, tmp, argv
      invariant f.Valid() && tmp.Valid() && tmp.offset == |tmp.bytes| && 0 <= count <= argv.Length && args == argv[..count]
      invariant known ==> Encodes(f.Unread(), rest) && Encodes(tmp.bytes, kept)
      invariant known ==> DeleteGoesOn(truncate, rest, args, kept, result)
      decreases |f.Unread()|
    {
      var status, c := NextMember(f, rest);
      if status.End? {
        break;
      }
      if status.BadFormat? {
        return None;
      }
      if known {
        CurrentName(f.Unread(), c, rest);
      }
      var found;
      found, count := Files(truncate, NameOf(c), argv, count);
      if known {
        DeleteStep(truncate, rest, args, kept, result);
      }
      args := argv[..count];
      if found.Some? {
        SkipMember(f, c, rest);
      } else {
        ok := KeepMember(f, tmp, c, rest, kept);
        if !ok {
          return None;
        }
        kept := if known then kept + [rest[0]] else kept;
      }
      rest := if known then rest[1..] else rest;
    }
    f.Seek(|ARMAG|);
    if known {
      DeleteEnds(f.bytes, ms, truncate, args, tmp.bytes, kept, result);
    }
    CopyOver(tmp, f);
    f.Truncate(f.offset);
    code := Some(if count > 0 then 1 else 0);
  }

  lemma DeleteEnds(bytes: string, ms: seq<Member>, truncate: bool, args: seq<string>,
                   tmp: string, kept: seq<Member>, result: Deleted)
    requires IsArchiveOf(bytes, ms) && DeleteGoesOn(truncate, [], args, kept, result) && Encodes(tmp, kept)
    ensures result == Deleted(kept, args) && |bytes| >= |ARMAG|
    ensures IsArchiveOf(bytes[..|ARMAG|] + tmp, kept)
  {
    TakeDrop(ARMAG, EncodeAll(ms));
  }

  /** These bytes are an archive of these members. */
  predicate IsArchiveOf(bytes: string, ms: seq<Member>) {
    AreMembers(ms) && bytes == Archive(ms)
  }

  lemma NothingEncoded()
    ensures Encodes("", [])
  {
  }

  lemma OpenedArchive(bytes: string, ms: seq<Member>)
    requires IsArchiveOf(bytes, ms)
    ensures IsPrefix(ARMAG, bytes) && |bytes| >= |ARMAG| && Encodes(bytes[|ARMAG|..], ms)
  {
    TakeDrop(ARMAG, EncodeAll(ms));
  }

  lemma DeleteStep(truncate: bool, rest: seq<Member>, argv: seq<string>, kept: seq<Member>, result: Deleted)
    requires rest != [] && DeleteGoesOn(truncate, rest, argv, kept, result)
    ensures var i := FirstMatch(truncate, rest[0].name, argv);
      if i < |argv| then DeleteGoesOn(truncate, rest[1..], Without(argv, i), kept, result)
      else DeleteGoesOn(truncate, rest[1..], argv, kept + [rest[0]], result)
  {
    var d := Delete'(truncate, rest[1..], argv);
    assert kept + ([rest[0]] + d.kept) == (kept + [rest[0]]) + d.kept;
  }

  /** What is kept so far and what the rest will give make the result. */
  predicate DeleteGoesOn(truncate: bool, rest: seq<Member>, argv: seq<string>, kept: seq<Member>, result: Deleted) {
    var d := Delete'(truncate, rest, argv);
    result == Deleted(kept + d.kept, d.left)
  }

  // ---------------------------------------------------------------- what deleting means

  lemma {:induction false} NothingDeleted(truncate: bool, ms: seq<Member>)
    ensures Delete'(truncate, ms, []) == Deleted(ms, [])
  {
    if ms != [] {
      NothingDeleted(truncate, ms[1..]);
      assert [ms[0]] + ms[1..] == ms;
    }
  }

  /** Deleting several members is deleting one after the other; so no argument deletes more than the first member
      of its name. */
  lemma {:induction false} DeleteOneByOne(truncate: bool, ms: seq<Member>, a: string, argv: seq<string>)
    ensures Delete'(truncate, ms, [a] + argv).kept
      == Delete'(truncate, Delete'(truncate, ms, [a]).kept, argv).kept
  {
    hide Matches, Without, FirstMatch;
    if ms != [] {
      var m, rest := ms[0], ms[1..];
      MatchOfTwo(truncate, m.name, a, argv);
      if Matches(truncate, m.name, a) {
        NothingDeleted(truncate, rest);
      } else {
        var i := FirstMatch(truncate, m.name, argv);
        var kept := Delete'(truncate, rest, [a]).kept;
        assert ([m] + kept)[1..] == kept;
        DeleteOneByOne(truncate, rest, a, if i < |argv| then Without(argv, i) else argv);
      }
    }
  }

  lemma MatchOfTwo(truncate: bool, name: string, a: string, argv: seq<string>)
    ensures FirstMatch(truncate, name, [a]) == if Matches(truncate, name, a) then 0 else 1
    ensures FirstMatch(truncate, name, [a] + argv)
      == if Matches(truncate, name, a) then 0 else 1 + FirstMatch(truncate, name, argv)
    ensures Without([a], 0) == [] && Without([a] + argv, 0) == argv
    ensures forall i: nat :: i < |argv| ==> Without([a] + argv, 1 + i) == [a] + Without(argv, i)
  {
    hide Matches, Without;
    assert ([a] + argv)[1..] == argv && [a][1..] == [];
    WithoutLater(a, argv);
  }

  lemma WithoutLater(a: string, argv: seq<string>)
    ensures Without([a], 0) == [] && Without([a] + argv, 0) == argv
    ensures forall i: nat :: i < |argv| ==> Without([a] + argv, 1 + i) == [a] + Without(argv, i)
  {
    forall i: nat | i < |argv| ensures Without([a] + argv, 1 + i) == [a] + Without(argv, i) {
      assert ([a] + argv)[..1 + i] == [a] + argv[..i] && ([a] + argv)[2 + i..] == argv[i + 1..];
    }
  }

  /** One argument deletes the first member of its name and nothing else. */
  lemma {:induction false} DeleteOne(truncate: bool, ms: seq<Member>, a: string, k: nat)
    requires k < |ms| && Matches(truncate, ms[k].name, a)
    requires forall j :: 0 <= j < k ==> !Matches(truncate, ms[j].name, a)
    ensures Delete'(truncate, ms, [a]) == Deleted(ms[..k] + ms[k + 1..], [])
  {
    hide Matches;
    assert [a][1..] == [] && Without([a], 0) == [];
    if k == 0 {
      NothingDeleted(truncate, ms[1..]);
    } else {
      DeleteOne(truncate, ms[1..], a, k - 1);
      assert [ms[0]] + (ms[1..][..k - 1] + ms[1..][k..]) == ms[..k] + ms[k + 1..];
    }
  }

  // ---------------------------------------------------------------- move

  /** The members before and after the position, those selected, the arguments that named none, and whether the
      position is still sought. */
  datatype Parts = Parts(before: seq<Member>, selected: seq<Member>, after: seq<Member>, left: seq<string>, mods: bool)

  function Move'(o: Options, position: string, ms: seq<Member>, argv: seq<string>, inAfter: bool, mods: bool): Parts {
    if ms == [] then Parts([], [], [], argv, mods) else
      var m, i := ms[0], FirstMatch(o.truncate, ms[0].name, argv);
      if i < |argv| then
        var p := Move'(o, position, ms[1..], Without(argv, i), inAfter, mods);
        p.(selected := [m] + p.selected)
      else
        var here := mods && Matches(o.truncate, m.name, position);
        var into := inAfter || (here && o.before);
        var p := Move'(o, position, ms[1..], argv, into || (here && o.after), mods && !here);
        if into then p.(after := [m] + p.after) else p.(before := [m] + p.before)
  }

  /** What is in the temporary files and what the rest will give make the parts. */
  predicate MoveGoesOn(o: Options, position: string, rest: seq<Member>, argv: seq<string>, inAfter: bool, mods: bool,
                       t1: seq<Member>, t2: seq<Member>, t3: seq<Member>, result: Parts)
  {
    var p := Move'(o, position, rest, argv, inAfter, mods);
    result == Parts(t1 + p.before, t2 + p.selected, t3 + p.after, p.left, p.mods)
  }

  lemma MoveStep(o: Options, position: string, rest: seq<Member>, argv: seq<string>, inAfter: bool, mods: bool,
                 t1: seq<Member>, t2: seq<Member>, t3: seq<Member>, result: Parts)
    requires rest != [] && MoveGoesOn(o, position, rest, argv, inAfter, mods, t1, t2, t3, result)
    ensures var m, i := rest[0], FirstMatch(o.truncate, rest[0].name, argv);
      var here := mods && Matches(o.truncate, m.name, position);
      var into := InAfter(o, position, m.name, inAfter, mods);
      if i < |argv| then MoveGoesOn(o, position, rest[1..], Without(argv, i), inAfter, mods, t1, t2 + [m], t3, result)
      else MoveGoesOn(o, position, rest[1..], argv, into || (here && o.after), mods && !here,
                      if into then t1 else t1 + [m], t2, if into then t3 + [m] else t3, result)
  {
    hide Matches, FirstMatch;
    var m := rest[0];
    assert forall t: seq<Member>, p: seq<Member> :: (t + [m]) + p == t + ([m] + p);
  }

  /** The side of the position that a member goes to. */
  predicate InAfter(o: Options, position: string, name: string, inAfter: bool, mods: bool) {
    inAfter || (mods && Matches(o.truncate, name, position) && o.before)
  }

  /** Copies a member that is not selected to its side, and notes when it has the name of the position. */
  method PlaceMember(f: File, t1: File, t3: File, o: Options, position: string, inAfter: bool, mods: bool, c: Current,
                     ghost ms: seq<Member>, ghost m1: seq<Member>, ghost m3: seq<Member>)
    returns (ok: bool, inAfter': bool, mods': bool)
    requires f != t1 && f != t3 && t1 != t3 && f.Valid() && t1.Valid() && t3.Valid()
    requires t1.offset == |t1.bytes| && t3.offset == |t3.bytes|
    requires |c.hb| == HEADER_SIZE && (c.lname > 0 ==> |c.name| == c.lname)
    modifies f`offset, t1, t3
    ensures f.Valid() && t1.Valid() && t3.Valid() && (ok ==> t1.offset == |t1.bytes| && t3.offset == |t3.bytes|)
    ensures |f.Unread()| <= |old(f.Unread())|
    ensures var here := mods && Matches(o.truncate, NameOf(c), position);
      inAfter' == (InAfter(o, position, NameOf(c), inAfter, mods) || (here && o.after)) && mods' == (mods && !here)
    ensures IsCurrent(old(f.Unread()), c, ms) ==> ok && Encodes(f.Unread(), ms[1..])
    ensures IsCurrent(old(f.Unread()), c, ms) && Encodes(old(t1.bytes), m1) && Encodes(old(t3.bytes), m3) ==>
      var into := InAfter(o, position, NameOf(c), inAfter, mods);
      && Encodes(t1.bytes, if into then m1 else m1 + [ms[0]])
      && Encodes(t3.bytes, if into then m3 + [ms[0]] else m3)
  {
    hide Matches, IsCurrent, Encodes, NameOf;
    var here := mods && Matches(o.truncate, NameOf(c), position);
    mods', inAfter' := mods, inAfter;
    if here {
      mods' := false;
      if o.before {
        inAfter' := true;
      }
    }
    ok := KeepOnSide(f, t1, t3, inAfter', c, ms, m1, m3);
    if here && o.after {
      inAfter' := true;
    }
  }

  /** Breaks an archive into three: entries before the position, entries selected, and entries after the position. */
  method Split(f: File, o: Options, position: string, argv: array<string>, t1: File, t2: File, t3: File, ghost ms: seq<Member>)
    returns (ok: bool, count: nat, mods: bool, ghost p: Parts)
    requires f.Valid() && t1.bytes == t2.bytes == t3.bytes == "" && t1.Valid() && t2.Valid() && t3.Valid()
    requires f != t1 && f != t2 && f != t3 && t1 != t2 && t1 != t3 && t2 != t3
    modifies f`offset, argv, t1, t2, t3
    ensures f.Valid() && t1.Valid() && t2.Valid() && t3.Valid()
    ensures p == Move'(o, position, ms, old(argv[..]), false, o.after || o.before)
    ensures Encodes(old(f.Unread()), ms) ==>
      && ok && count == |p.left| && mods == p.mods
      && Encodes(t1.bytes, p.before) && Encodes(t2.bytes, p.selected) && Encodes(t3.bytes, p.after)
  {
    hide Matches, NameOf, Without, FirstMatch, IsCurrent, Encodes, MoveGoesOn, Move', InAfter;
    ghost var known := Encodes(f.Unread(), ms);
    var inAfter := false;
    mods := o.after || o.before;
    p := Move'(o, position, ms, argv[..], inAfter, mods);
    MoveStarts(o, position, ms, argv[..], inAfter, mods);
    count := argv.Length;
    ghost var rest, m1, m2, m3, args := ms, [], [], [], argv[..];
    NothingEncoded();
    while true
      invariant f.Valid() && t1.Valid() && t2.Valid() && t3.Valid()
      invariant t1.offset == |t1.bytes| && t2.offset == |t2.bytes| && t3.offset == |t3.bytes|
      invariant 0 <= count <= argv.Length && args == argv[..count]
      invariant known ==> Encodes(f.Unread(), rest)
      invariant known ==> Encodes(t1.bytes, m1) && Encodes(t2.bytes, m2) && Encodes(t3.bytes, m3)
      invariant known ==> MoveGoesOn(o, position, rest, args, inAfter, mods, m1, m2, m3, p)
      decreases |f.Unread()|
    {
      var status, c := NextMember(f, rest);
      if status.End? {
        break;
      }
      if status.BadFormat? {
        return false, count, mods, p;
      }
      if known {
        CurrentName(f.Unread(), c, rest);
        MoveStep(o, position, rest, args, inAfter, mods, m1, m2, m3, p);
      }
      var found;
      found, count := Files(o.truncate, NameOf(c), argv, count);
      args := argv[..count];
      if found.Some? {
        ok := KeepMember(f, t2, c, rest, m2);
        m2 := if known then m2 + [rest[0]] else m2;
      } else {
        ghost var into := InAfter(o, position, NameOf(c), inAfter, mods);
        ok, inAfter, mods := PlaceMember(f, t1, t3, o, position, inAfter, mods, c, rest, m1, m3);
        m1 := if known && !into then m1 + [rest[0]] else m1;
        m3 := if known && into then m3 + [rest[0]] else m3;
      }
      if !ok {
        return false, count, mods, p;
      }
      rest := if known then rest[1..] else rest;
    }
    if known {
      MoveNothing(o, position, args, inAfter, mods, m1, m2, m3, p);
    }
    ok := true;
  }

  /** move. When the position is not found nothing is written. */
  method Move(f: File, o: Options, position: string, argv: array<string>, ghost ms: seq<Member>) returns (code: Option<int>)
    requires f.offset == 0
    modifies f, argv
    ensures code.None? ==> f.bytes == old(f.bytes)
    ensures IsArchiveOf(old(f.bytes), ms) ==>
      var p := Move'(o, position, ms, old(argv[..]), false, o.after || o.before);
      if p.mods then code == Some(1) && f.bytes == old(f.bytes)
      else IsArchiveOf(f.bytes, p.before + p.selected + p.after) && code == Some(if p.left != [] then 1 else 0)
  {
    hide Encodes, Move', IsArchiveOf;
    ghost var known := IsArchiveOf(f.bytes, ms);
    var ok := OpenArchive(f);
    if known {
      OpenedArchive(f.bytes, ms);
    }
    if !ok {
      return None;
    }
    var t1 := new File("");
    var t2 := new File("");
    var t3 := new File("");
    var count, mods;
    ghost var p;
    ok, count, mods, p := Split(f, o, position, argv, t1, t2, t3, ms);
    if !ok {
      return None;
    }
    if mods {
      return Some(1);
    }
    if known {
      ThreeParts(f.bytes, ms, t1.bytes, t2.bytes, t3.bytes, p.before, p.selected, p.after);
    }
    Rejoin(f, t1, t2, t3);
    code := Some(if count > 0 then 1 else 0);
  }

  lemma MoveStarts(o: Options, position: string, ms: seq<Member>, argv: seq<string>, inAfter: bool, mods: bool)
    ensures MoveGoesOn(o, position, ms, argv, inAfter, mods, [], [], [], Move'(o, position, ms, argv, inAfter, mods))
  {
    hide Move';
  }

  lemma MagicOf(bytes: string, ms: seq<Member>)
    requires IsArchiveOf(bytes, ms) && |bytes| >= |ARMAG|
    ensures bytes[..|ARMAG|] == ARMAG
  {
    TakeDrop(ARMAG, EncodeAll(ms));
  }

  lemma MoveNothing(o: Options, position: string, args: seq<string>, inAfter: bool, mods: bool,
                    m1: seq<Member>, m2: seq<Member>, m3: seq<Member>, result: Parts)
    requires MoveGoesOn(o, position, [], args, inAfter, mods, m1, m2, m3, result)
    ensures result == Parts(m1, m2, m3, args, mods)
  {
  }

  lemma ThreeParts(bytes: string, ms: seq<Member>, b1: string, b2: string, b3: string,
                   m1: seq<Member>, m2: seq<Member>, m3: seq<Member>)
    requires IsArchiveOf(bytes, ms) && Encodes(b1, m1) && Encodes(b2, m2) && Encodes(b3, m3)
    ensures |bytes| >= |ARMAG| && IsArchiveOf(((bytes[..|ARMAG|] + b1) + b2) + b3, m1 + m2 + m3)
  {
    OpenedArchive(bytes, ms);
    MagicOf(bytes, ms);
    EncodeAllConcat(m1, m2);
    EncodeAllConcat(m1 + m2, m3);
    hide EncodeAll;
    Associate(ARMAG, b1, b2, b3);
  }

  lemma Associate(a: string, b: string, c: string, d: string)
    ensures ((a + b) + c) + d == a + ((b + c) + d)
  {
  }

  // ---------------------------------------------------------------- what moving means

  /** After the position has been found no more is sought, and all go to the side after it. */
  lemma {:induction false} MoveInAfter(o: Options, position: string, ms: seq<Member>, argv: seq<string>, inAfter: bool, mods: bool)
    ensures var p := Move'(o, position, ms, argv, inAfter, mods);
      (inAfter ==> p.before == []) && (!mods ==> !p.mods)
  {
    hide Matches, FirstMatch;
    if ms != [] {
      var m, i := ms[0], FirstMatch(o.truncate, ms[0].name, argv);
      if i < |argv| {
        MoveInAfter(o, position, ms[1..], Without(argv, i), inAfter, mods);
      } else {
        var here := mods && Matches(o.truncate, m.name, position);
        var into := inAfter || (here && o.before);
        MoveInAfter(o, position, ms[1..], argv, into || (here && o.after), mods && !here);
      }
    }
  }

  /** Those not selected stay in their order, as if the others had been deleted. */
  lemma {:induction false} MoveKeepsOthers(o: Options, position: string, ms: seq<Member>, argv: seq<string>, inAfter: bool, mods: bool)
    ensures var p, d := Move'(o, position, ms, argv, inAfter, mods), Delete'(o.truncate, ms, argv);
      p.before + p.after == d.kept && p.left == d.left
  {
    hide Matches, FirstMatch;
    if ms != [] {
      var m, i := ms[0], FirstMatch(o.truncate, ms[0].name, argv);
      if i < |argv| {
        MoveKeepsOthers(o, position, ms[1..], Without(argv, i), inAfter, mods);
      } else {
        var here := mods && Matches(o.truncate, m.name, position);
        var into := inAfter || (here && o.before);
        var next := into || (here && o.after);
        MoveKeepsOthers(o, position, ms[1..], argv, next, mods && !here);
        MoveInAfter(o, position, ms[1..], argv, next, mods && !here);
        var p := Move'(o, position, ms[1..], argv, next, mods && !here);
        assert [m] + (p.before + p.after) == ([m] + p.before) + p.after;
        hide Move', Delete';
      }
    }
  }

  /** No member is lost or doubled. */
  lemma {:induction false} MovePermutes(o: Options, position: string, ms: seq<Member>, argv: seq<string>, inAfter: bool, mods: bool)
    ensures var p := Move'(o, position, ms, argv, inAfter, mods);
      multiset(p.before) + multiset(p.selected) + multiset(p.after) == multiset(ms)
  {
    hide Matches, FirstMatch;
    if ms != [] {
      var m, i := ms[0], FirstMatch(o.truncate, ms[0].name, argv);
      assert ms == [m] + ms[1..];
      if i < |argv| {
        MovePermutes(o, position, ms[1..], Without(argv, i), inAfter, mods);
      } else {
        var here := mods && Matches(o.truncate, m.name, position);
        var into := inAfter || (here && o.before);
        MovePermutes(o, position, ms[1..], argv, into || (here && o.after), mods && !here);
      }
    }
  }

  predicate NoneMatches(truncate: bool, ms: seq<Member>, position: string) {
    forall m :: m in ms ==> !Matches(truncate, m.name, position)
  }

  /** The members before and after the position are split at the first of its name: that one is the first after or
      the last before; the position is still sought exactly when there is no such member. */
  predicate SplitsAt(o: Options, position: string, p: Parts, kept: seq<Member>) {
    && (p.mods <==> NoneMatches(o.truncate, kept, position))
    && (!p.mods && o.before ==>
          p.after != [] && Matches(o.truncate, p.after[0].name, position) && NoneMatches(o.truncate, p.before, position))
    && (!p.mods && o.after ==>
          p.before != [] && Matches(o.truncate, p.before[|p.before| - 1].name, position)
          && NoneMatches(o.truncate, p.before[..|p.before| - 1], position))
  }

  /** The position splits the unselected members. */
  lemma {:induction false} MovePosition(o: Options, position: string, ms: seq<Member>, argv: seq<string>)
    requires o.before != o.after
    ensures SplitsAt(o, position, Move'(o, position, ms, argv, false, true), Delete'(o.truncate, ms, argv).kept)
  {
    hide Matches, FirstMatch;
    if ms != [] {
      var m, i := ms[0], FirstMatch(o.truncate, ms[0].name, argv);
      if i < |argv| {
        MovePosition(o, position, ms[1..], Without(argv, i));
      } else if Matches(o.truncate, m.name, position) {
        PositionIsFirst(o, position, ms, argv);
      } else {
        MovePosition(o, position, ms[1..], argv);
        SplitsLater(o, position, m, Move'(o, position, ms[1..], argv, false, true), Delete'(o.truncate, ms[1..], argv).kept);
      }
    }
  }

  lemma PositionIsFirst(o: Options, position: string, ms: seq<Member>, argv: seq<string>)
    requires o.before != o.after && ms != [] && FirstMatch(o.truncate, ms[0].name, argv) == |argv|
    requires Matches(o.truncate, ms[0].name, position)
    ensures var p, d := Move'(o, position, ms, argv, false, true), Delete'(o.truncate, ms, argv);
      && !p.mods && d.kept != [] && d.kept[0] == ms[0]
      && (o.before ==> p.before == [] && p.after != [] && p.after[0] == ms[0])
      && (o.after ==> p.before == [ms[0]])
  {
    hide Matches, FirstMatch;
    MoveInAfter(o, position, ms[1..], argv, true, false);
  }

  lemma SplitsLater(o: Options, position: string, m: Member, p: Parts, kept: seq<Member>)
    requires o.before != o.after && !Matches(o.truncate, m.name, position) && SplitsAt(o, position, p, kept)
    ensures SplitsAt(o, position, p.(before := [m] + p.before), [m] + kept)
  {
    hide Matches, NoneMatches;
    NotFirst(o.truncate, m, kept, position);
    NotFirst(o.truncate, m, p.before, position);
  }

  lemma NotFirst(truncate: bool, m: Member, ms: seq<Member>, position: string)
    requires !Matches(truncate, m.name, position)
    ensures NoneMatches(truncate, [m] + ms, position) <==> NoneMatches(truncate, ms, position)
    ensures ms != [] ==> ([m] + ms)[|ms|] == ms[|ms| - 1] && ([m] + ms)[..|ms|] == [m] + ms[..|ms| - 1]
    ensures ms != [] && NoneMatches(truncate, ms[..|ms| - 1], position) ==> NoneMatches(truncate, [m] + ms[..|ms| - 1], position)
  {
    hide Matches;
    assert forall x :: x in ms ==> x in [m] + ms;
  }

  /** A position that is moved itself is not found. */
  lemma MissedPositionExample(o: Options, m: Member)
    requires o.before != o.after && m.name == "a"
    ensures Move'(o, "a", [m], ["a"], false, true).mods
  {
    assert Rname("a") == "a";
    assert FirstMatch(o.truncate, m.name, ["a"]) == 0;
    assert [m][1..] == [];
  }
}
