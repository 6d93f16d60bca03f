/** Reading, writing and skipping archive members (cctools/ar/archive.c). */
module ArObject {
  import opened ArFormat
  import opened Decimal
  import opened Wrappers

  /** Bytes with others written over them from a place on. */
  function Overwritten(bytes: string, offset: nat, s: string): (r: string)
    requires offset <= |bytes|
    ensures |r| >= offset + |s|
  {
    bytes[..offset] + s + (if offset + |s| <= |bytes| then bytes[offset + |s|..] else "")
  }

  lemma OverwrittenTwice(bytes: string, offset: nat, a: string, b: string)
    requires offset <= |bytes|
    ensures Overwritten(Overwritten(bytes, offset, a), offset + |a|, b) == Overwritten(bytes, offset, a + b)
  {
    var r := Overwritten(bytes, offset, a);
    assert r[..offset + |a|] == bytes[..offset] + a;
    if offset + |a| <= |bytes| {
      assert r[offset + |a|..] == bytes[offset + |a|..];
    }
    if offset + |a| + |b| <= |bytes| {
      assert r[offset + |a| + |b|..] == bytes[offset + |a| + |b|..];
    }
  }

  /** An open file: its bytes and where the next read or write happens. Writes are complete. */
  class File {
    var bytes: string
    var offset: nat

    constructor (bytes: string)
      ensures this.bytes == bytes && offset == 0
    {
      this.bytes, offset := bytes, 0;
    }

    ghost predicate Valid()
      reads this
    {
      offset <= |bytes|
    }

    /** What has not been read yet. */
    function Unread(): string
      requires offset <= |bytes|
      reads this
    {
      bytes[offset..]
    }

    method Read(n: nat) returns (s: string)
      requires Valid()
      modifies this`offset
      ensures Valid() && s == (if n <= |old(Unread())| then old(Unread())[..n] else old(Unread()))
      ensures Unread() == old(Unread())[|s|..]
    {
      var end := if n <= |bytes| - offset then offset + n else |bytes|;
      s := bytes[offset..end];
      offset := end;
    }

    method Write(s: string)
      requires Valid()
      modifies this
      ensures Valid() && offset == old(offset) + |s| && bytes == Overwritten(old(bytes), old(offset), s)
    {
      bytes := Overwritten(bytes, offset, s);
      offset := offset + |s|;
    }

    method Seek(to: nat)
      requires to <= |bytes|
      modifies this`offset
      ensures Valid() && offset == to
    {
      offset := to;
    }

    method Truncate(size: nat)
      requires Valid() && size <= |bytes|
      modifies this`bytes
      ensures bytes == old(bytes)[..size]
    {
      bytes := bytes[..size];
    }
  }

  datatype Status = Got | End | BadFormat

  /** The header that get_arobj leaves in hb and chdr. */
  datatype Current = Current(hb: string, name: string, lname: nat, size: nat, stamp: string)

  /** The header of a member, once it has been read. */
  function CurrentOf(m: Member): Current
    requires IsMember(m)
  {
    Current(Header(m), if m.padded == 0 then m.name else LongName(m), m.padded, |m.data|, m.stamp)
  }

  /** The rest of a member once its header has been read. */
  function Body(m: Member): string
    requires IsMember(m)
  {
    m.data + Even(|m.data| + m.padded)
  }

  lemma TakeDrop(a: string, b: string)
    ensures (a + b)[..|a|] == a && (a + b)[|a|..] == b
  {
  }

  /** get_arobj. */
  method GetArobj(f: File, ghost m: Member, ghost rest: string) returns (status: Status, c: Current)
    requires f.Valid()
    modifies f`offset
    ensures f.Valid()
    ensures status.Got? ==> |c.hb| == HEADER_SIZE && |c.stamp| == 32 && (c.lname > 0 ==> |c.name| == c.lname)
    ensures status.Got? ==> |f.Unread()| < |old(f.Unread())|
    ensures status.End? <==> old(f.Unread()) == ""
    ensures var b := old(f.Unread()); |b| >= HEADER_SIZE && ParseHeader(b[..HEADER_SIZE]).None? ==> status.BadFormat?
    ensures IsMember(m) && old(f.Unread()) == Encode(m) + rest ==>
      status.Got? && c == CurrentOf(m) && f.Unread() == Body(m) + rest
  {
    hide Header, LongName, Even, ParseHeader, Fill;
    ghost var known := IsMember(m) && f.Unread() == Encode(m) + rest;
    ghost var before := f.Unread();
    if known {
      assert before == Header(m) + (LongName(m) + (Body(m) + rest));
      TakeDrop(Header(m), LongName(m) + (Body(m) + rest));
      TakeDrop(LongName(m), Body(m) + rest);
      HeaderRoundTrip(m);
    }
    c := Current("", "", 0, 0, "");
    var hb := f.Read(HEADER_SIZE);
    if |hb| != HEADER_SIZE {
      return if |hb| == 0 then End else BadFormat, c;
    }
    var header := ParseHeader(hb);
    if header.None? {
      return BadFormat, c;
    }
    var h := header.value;
    if h.lname > 0 {
      var name := f.Read(h.lname);
      if |name| != h.lname || h.size < h.lname {
        return BadFormat, c;
      }
      return Got, Current(hb, name, h.lname, h.size - h.lname, h.stamp);
    }
    return Got, Current(hb, h.shortName, 0, h.size, h.stamp);
  }

  const BUFFER_SIZE := 8 * 1024

  function Lesser(a: nat, b: nat): nat {
    if a < b then a else b
  }

  /** Copies size bytes in pieces, or as many as there are. */
  method CopyBytes(from: File, to: File, size: nat) returns (ok: bool)
    requires from != to && from.Valid() && to.Valid()
    modifies from`offset, to
    ensures from.Valid() && to.Valid() && ok == (size <= |old(from.Unread())|)
    ensures |from.Unread()| <= |old(from.Unread())|
    ensures ok ==> from.Unread() == old(from.Unread())[size..]
    ensures ok ==> to.bytes == Overwritten(old(to.bytes), old(to.offset), old(from.Unread())[..size])
    ensures ok ==> to.offset == old(to.offset) + size
  {
    hide Overwritten;
    ghost var unread, bytes, start := from.Unread(), to.bytes, to.offset;
    NothingWritten(bytes, start);
    var left := size;
    while left > 0
      invariant from.Valid() && to.Valid() && 0 <= left <= size && size - left <= |unread|
      invariant from.Unread() == unread[size - left..]
      invariant to.bytes == Overwritten(bytes, start, unread[..size - left]) && to.offset == start + (size - left)
    {
      ghost var done := unread[..size - left];
      var buffer := from.Read(Lesser(left, BUFFER_SIZE));
      if buffer == "" {
        return false;
      }
      to.Write(buffer);
      OverwrittenTwice(bytes, start, done, buffer);
      assert done + buffer == unread[..size - left + |buffer|];
      left := left - |buffer|;
    }
    return true;
  }

  lemma NothingWritten(bytes: string, offset: nat)
    requires offset <= |bytes|
    ensures Overwritten(bytes, offset, "") == bytes
  {
  }

  /** copy_ar: the bytes, and pad bytes where the flags want them; neither of an empty member. */
  method CopyAr(from: File, to: File, size: nat, readPad: bool, writePad: bool, lname: nat, alreadyWritten: nat)
    returns (ok: bool)
    requires from != to && from.Valid() && to.Valid()
    modifies from`offset, to
    ensures from.Valid() && to.Valid() && |from.Unread()| <= |old(from.Unread())|
    ensures var unread := old(from.Unread());
      var end := size + if size > 0 && readPad then |Even(size + lname)| else 0;
      && ok == (end <= |unread|)
      && (ok ==> from.Unread() == unread[end..])
    ensures ok ==>
      var pad := if size > 0 && writePad then Even(size + alreadyWritten) else "";
      && to.bytes == Overwritten(old(to.bytes), old(to.offset), old(from.Unread())[..size] + pad)
      && to.offset == old(to.offset) + size + |pad|
  {
    hide Overwritten;
    ghost var unread, bytes, start := from.Unread(), to.bytes, to.offset;
    if size == 0 {
      NothingWritten(bytes, start);
      return true;
    }
    ok := CopyBytes(from, to, size);
    if !ok {
      return;
    }
    if readPad && (size + lname) % 2 == 1 {
      var pad := from.Read(1);
      if |pad| != 1 {
        return false;
      }
    }
    if writePad && (size + alreadyWritten) % 2 == 1 {
      to.Write("\n");
      OverwrittenTwice(bytes, start, unread[..size], "\n");
    } else {
      assert unread[..size] + "" == unread[..size];
    }
  }

  /** skip_arobj: by seeking, which does not notice the end of the file. */
  method SkipArobj(f: File, c: Current, ghost m: Member, ghost rest: string)
    requires f.Valid()
    modifies f`offset
    ensures f.Valid() && |f.Unread()| <= |old(f.Unread())|
    ensures IsMember(m) && c == CurrentOf(m) && old(f.Unread()) == Body(m) + rest ==> f.Unread() == rest
  {
    var length := c.size + (c.size + c.lname) % 2;
    if f.offset + length <= |f.bytes| {
      f.Seek(f.offset + length);
    } else {
      f.Seek(|f.bytes|);
    }
  }

  /** How many NULs fill a long name up. */
  function NamePad(lname: nat): nat {
    if lname % 4 == 0 then 0 else 4 - lname % 4
  }

  /** Writes a header, and after it a long name filled up to a multiple of four. */
  method PutHeader(to: File, hb: string, name: string, lname: nat) returns (alreadyWritten: nat)
    requires to.Valid() && to.offset == |to.bytes| && (lname > 0 ==> |name| == lname)
    modifies to
    ensures to.Valid() && to.offset == |to.bytes|
    ensures alreadyWritten == lname + NamePad(lname)
    ensures to.bytes == old(to.bytes) + hb + (if lname > 0 then name else "") + Fill('\0', NamePad(lname))
  {
    hide Fill, Overwritten;
    AtEnd(to.bytes, hb);
    to.Write(hb);
    alreadyWritten := 0;
    assert to.bytes + "" + Fill('\0', 0) == to.bytes by { NoFill(); }
    if lname > 0 {
      AtEnd(to.bytes, name);
      to.Write(name);
      alreadyWritten := lname;
      if lname % 4 != 0 {
        var pad := Fill('\0', 4 - lname % 4);
        AtEnd(to.bytes, pad);
        to.Write(pad);
        alreadyWritten := alreadyWritten + (4 - lname % 4);
      } else {
        assert to.bytes + Fill('\0', 0) == to.bytes by { NoFill(); }
      }
    }
  }

  lemma NoFill()
    ensures Fill('\0', 0) == ""
  {
  }

  /** put_arobj of the member that has just been read: header, long name and contents are copied. */
  method PutArobj(from: File, to: File, c: Current, ghost m: Member, ghost rest: string) returns (ok: bool)
    requires from != to && from.Valid() && to.Valid() && to.offset == |to.bytes|
    requires |c.hb| == HEADER_SIZE && (c.lname > 0 ==> |c.name| == c.lname)
    modifies from`offset, to
    ensures from.Valid() && to.Valid() && (ok ==> to.offset == |to.bytes|)
    ensures |from.Unread()| <= |old(from.Unread())|
    ensures IsMember(m) && c == CurrentOf(m) && old(from.Unread()) == Body(m) + rest ==>
      ok && from.Unread() == rest && to.bytes == old(to.bytes) + Encode(m)
  {
    hide Header, LongName, Fill, Overwritten;
    ghost var known := IsMember(m) && c == CurrentOf(m) && from.Unread() == Body(m) + rest;
    ghost var before, unread := to.bytes, from.Unread();
    var alreadyWritten := PutHeader(to, c.hb, c.name, c.lname);
    ghost var written := to.bytes;
    if known {
      BodyParts(m, rest);
    }
    if c.size <= |unread| {
      AtEnd(written, unread[..c.size] + if c.size > 0 then Even(c.size + alreadyWritten) else "");
    }
    ok := CopyAr(from, to, c.size, true, true, c.lname, alreadyWritten);
    if known {
      NoFill();
      if m.padded == 0 {
        NoLongName(m);
      }
      assert written == before + Header(m) + LongName(m);
      Joined(before, Header(m), LongName(m), Body(m));
    }
  }

  lemma NoLongName(m: Member)
    requires IsMember(m) && m.padded == 0
    ensures LongName(m) == ""
  {
  }

  lemma Joined(a: string, b: string, c: string, d: string)
    ensures ((a + b) + c) + d == a + (b + (c + d))
  {
  }

  lemma AtEnd(bytes: string, s: string)
    ensures Overwritten(bytes, |bytes|, s) == bytes + s
  {
    assert bytes[..|bytes|] == bytes;
  }

  /** Where the contents and their pad byte end. */
  lemma BodyIs(m: Member)
    requires IsMember(m)
    ensures Body(m) == m.data + Even(|m.data| + m.padded)
    ensures m.data == "" ==> Even(|m.data| + m.padded) == ""
  {
  }

  lemma BodyParts(m: Member, rest: string)
    requires IsMember(m)
    ensures var unread, n := Body(m) + rest, |m.data|;
      && n <= |unread| && unread[..n] == m.data && unread[n + |Even(n + m.padded)|..] == rest
      && (n == 0 ==> Even(n + m.padded) == "")
  {
    BodyIs(m);
    hide IsMember, Body, Even;
    var pad := Even(|m.data| + m.padded);
    assert (m.data + pad) + rest == m.data + (pad + rest);
    TakeDrop(m.data, pad + rest);
    TakeDrop(m.data + pad, rest);
  }

  // ---------------------------------------------------------------- members from the disk

  const OLDARMAXNAME := 15

  /** The last component of a path. */
  function Rname(path: string): (name: string)
    ensures '/' !in name
  {
    if path == "" then ""
    else if path[|path| - 1] == '/' then ""
    else Rname(path[..|path| - 1]) + [path[|path| - 1]]
  }

  /** It is what follows the last slash, or the whole path when there is none. */
  lemma {:induction false} RnameIsLast(path: string) returns (directory: string)
    ensures path == directory + Rname(path) && '/' !in Rname(path)
    ensures directory == "" || directory[|directory| - 1] == '/'
  {
    if path == "" || path[|path| - 1] == '/' {
      directory := path;
    } else {
      directory := RnameIsLast(path[..|path| - 1]);
      assert path == path[..|path| - 1] + [path[|path| - 1]];
    }
  }

  /** The member that a file becomes. */
  function NewMember(truncate: bool, path: string, stamp: string, data: string): Member {
    var name := Rname(path);
    if truncate then Member(name[..Lesser(|name|, OLDARMAXNAME)], 0, stamp, data)
    else NamedMember(name, stamp, data)
  }

  /** A name that is too long or has a blank is written after the header, padded to a multiple of four. */
  function NamedMember(name: string, stamp: string, data: string): Member {
    Member(name, if |name| > 16 || ' ' in name then (|name| + 3) / 4 * 4 else 0, stamp, data)
  }

  /** The header of a new member is read back just when the name has at most 252 characters: a longer one is filled up
      to 256, which the reader takes for a bad format. */
  lemma NewMemberIsReadableIff(path: string, stamp: string, data: string)
    requires Rname(path) != "" && '\0' !in path && |Rname(path)| <= MAXNAMLEN
    requires |stamp| == 32 && |data| + MAXNAMLEN < MAX_SIZE
    ensures var m := NewMember(false, path, stamp, data);
      && (ParseHeader(HeaderText(m)[..HEADER_SIZE]).Some? <==> |Rname(path)| <= 252)
      && (IsMember(m) <==> |Rname(path)| <= 252)
  {
    RnameChars(path);
    NamedIsReadableIff(Rname(path), stamp, data);
    hide *;
    NewMemberIs(path, stamp, data);
  }

  lemma NewMemberIs(path: string, stamp: string, data: string)
    ensures NewMember(false, path, stamp, data) == NamedMember(Rname(path), stamp, data)
  {
  }

  lemma NamedIsReadableIff(name: string, stamp: string, data: string)
    requires name != "" && '\0' !in name && '/' !in name && |name| <= MAXNAMLEN
    requires |stamp| == 32 && |data| + MAXNAMLEN < MAX_SIZE
    ensures ParseHeader(HeaderText(NamedMember(name, stamp, data))[..HEADER_SIZE]).Some? <==> |name| <= 252
    ensures IsMember(NamedMember(name, stamp, data)) <==> |name| <= 252
  {
    NoMark(name);
    hide IsPrefix, IsMember, HeaderText, ParseHeader;
    if |name| > 16 || ' ' in name {
      LongIsMemberIff(name, stamp, data);
    } else {
      ShortIsMember(name, stamp, data);
    }
    ReadableIffMember(NamedMember(name, stamp, data));
  }

  /** A new member with a stamp is read back just when the reader knows its length of name. */
  lemma ReadableIffMember(m: Member)
    requires |m.stamp| == 32 && (IsMember(m) || m.padded == 256)
    ensures ParseHeader(HeaderText(m)[..HEADER_SIZE]).Some? <==> IsMember(m)
  {
    if IsMember(m) {
      MemberHeaderIsRead(m);
    } else {
      LongHeaderIsBad(m);
    }
    hide HeaderText, ParseHeader, IsMember;
  }

  lemma MemberHeaderIsRead(m: Member)
    requires IsMember(m)
    ensures |m.stamp| == 32 && ParseHeader(HeaderText(m)[..HEADER_SIZE]).Some?
  {
    HeaderTextOfMember(m);
    HeaderRoundTrip(m);
    hide HeaderText, ParseHeader, Header;
    assert Header(m)[..HEADER_SIZE] == Header(m);
  }

  /** The padded length 256 in a header is a bad format. */
  lemma LongHeaderIsBad(m: Member)
    requires |m.stamp| == 32 && m.padded == 256
    ensures ParseHeader(HeaderText(m)[..HEADER_SIZE]).None?
  {
    NumberOfField(256, 13) by {
      assert Ten(3) == 1000;
      hide Ten;
      DecimalTextLength(256, 3);
    }
    hide DecimalText, LeadingNumber, StripBlanks, Fill;
    var h := HeaderText(m)[..HEADER_SIZE];
    assert |DecimalText(256)| <= 13;
    assert h[3..16] == Field(DecimalText(256), 13);
    assert h[..3] == AR_EFMT1;
  }

  lemma {:induction false} NoDirectory(path: string)
    requires '/' !in path
    ensures Rname(path) == path
  {
    if path != "" {
      NoDirectory(path[..|path| - 1]);
    }
  }

  /** A name of 253 characters cannot be read back. */
  lemma UnreadableNameExample(path: string)
    requires |path| == 253 && forall c :: c in path ==> c == 'a'
    ensures ParseHeader(HeaderText(NewMember(false, path, Fill('0', 32), ""))[..HEADER_SIZE]).None?
  {
    assert '/' !in path && '\0' !in path;
    NoDirectory(path);
    NewMemberIsReadableIff(path, Fill('0', 32), "");
  }

  lemma LongIsMemberIff(name: string, stamp: string, data: string)
    requires name != "" && '\0' !in name && |name| <= MAXNAMLEN && |stamp| == 32 && |data| + MAXNAMLEN < MAX_SIZE
    ensures IsMember(Member(name, (|name| + 3) / 4 * 4, stamp, data)) <==> |name| <= 252
    ensures |name| > 252 ==> (|name| + 3) / 4 * 4 == 256
  {
    var n := (|name| + 3) / 4;
    assert n > 0 && |name| <= 4 * n <= |name| + 3;
    assert 4 * n <= MAXNAMLEN <==> |name| <= 252;
  }

  lemma ShortIsMember(name: string, stamp: string, data: string)
    requires 0 < |name| <= 16 && ' ' !in name && '\0' !in name && !IsPrefix(AR_EFMT1, name)
    requires |stamp| == 32 && |data| < MAX_SIZE
    ensures IsMember(Member(name, 0, stamp, data))
  {
    hide IsPrefix;
    assert name[0] in name && name[|name| - 1] in name;
  }

  lemma NoMark(name: string)
    requires '/' !in name
    ensures !IsPrefix(AR_EFMT1, name)
  {
    assert |name| >= 3 ==> name[..3][2] == name[2];
  }

  lemma {:induction false} RnameChars(path: string)
    ensures forall c :: c in Rname(path) ==> c in path
  {
    if path != "" && path[|path| - 1] != '/' {
      RnameChars(path[..|path| - 1]);
    }
  }

  /** A field that may be longer than its width, as printf has it. */
  function Formatted(s: string, width: nat): (f: string)
    ensures |f| >= width
  {
    if |s| <= width then Field(s, width) else s
  }

  /** What put_arobj prints of a member; sixty bytes of it are written. */
  function HeaderText(m: Member): (h: string)
    requires |m.stamp| == 32
    ensures |h| >= HEADER_SIZE
  {
    (if m.padded == 0 then Formatted(m.name[..Lesser(|m.name|, 16)], 16) else AR_EFMT1 + Formatted(DecimalText(m.padded), 13))
    + m.stamp + Formatted(DecimalText(|m.data| + m.padded), 10) + ARFMAG
  }

  lemma HeaderTextOfMember(m: Member)
    requires IsMember(m)
    ensures HeaderText(m) == Header(m)
  {
    hide DecimalText, Fill;
    SmallNumbers(m.padded);
    SmallNumbers(|m.data| + m.padded);
    assert m.padded == 0 ==> m.name[..Lesser(|m.name|, 16)] == m.name;
  }

  /** put_arobj of a file on the disk. */
  method PutFile(to: File, truncate: bool, path: string, stamp: string, data: string) returns (ok: bool)
    requires to.Valid() && to.offset == |to.bytes| && |stamp| == 32
    modifies to
    ensures to.Valid() && (ok ==> to.offset == |to.bytes|)
    ensures ok ==> IsPrefix(old(to.bytes) + HeaderText(NewMember(truncate, path, stamp, data))[..HEADER_SIZE], to.bytes)
    ensures ok && (IsMember(NewMember(truncate, path, stamp, data)) ==>
      to.bytes == old(to.bytes) + Encode(NewMember(truncate, path, stamp, data)))
  {
    hide Header, Fill, Overwritten, Rname, HeaderText, IsMember, Encode, Even;
    ghost var before := to.bytes;
    var m := NewMember(truncate, path, stamp, data);
    var lname := if m.padded == 0 then 0 else |m.name|;
    var hb := HeaderText(m)[..HEADER_SIZE];
    var from := new File(data);
    var alreadyWritten := PutHeader(to, hb, m.name, lname);
    ghost var written := to.bytes;
    ghost var pad := if |data| > 0 then Even(|data| + alreadyWritten) else "";
    AtEnd(written, data + pad);
    WholeFile(data);
    ok := CopyAr(from, to, |data|, false, true, 0, alreadyWritten);
    if IsMember(m) {
      NewMemberBytes(before, m, lname, hb, written, pad);
    }
  }

  lemma WholeFile(data: string)
    ensures data[0..] == data && data[..|data|] == data
  {
  }

  lemma NewMemberBytes(before: string, m: Member, lname: nat, hb: string, written: string, pad: string)
    requires IsMember(m) && hb == HeaderText(m)[..HEADER_SIZE]
    requires lname == (if m.padded == 0 then 0 else |m.name|) && (m.padded > 0 ==> m.padded == (|m.name| + 3) / 4 * 4)
    requires written == before + hb + (if lname > 0 then m.name else "") + Fill('\0', NamePad(lname))
    requires pad == if |m.data| > 0 then Even(|m.data| + (lname + NamePad(lname))) else ""
    ensures written + (m.data + pad) == before + Encode(m)
  {
    hide Header, Fill, HeaderText, LongName;
    HeaderTextOfMember(m);
    assert hb == Header(m);
    LongNameWritten(m, lname);
    assert pad == Even(|m.data| + m.padded);
    FourParts(before, hb, if lname > 0 then m.name else "", Fill('\0', NamePad(lname)), m.data + pad);
  }

  lemma FourParts(a: string, b: string, c: string, d: string, e: string)
    ensures a + b + c + d + e == a + (b + ((c + d) + e))
  {
  }

  lemma LongNameWritten(m: Member, lname: nat)
    requires IsMember(m) && lname == (if m.padded == 0 then 0 else |m.name|) && (m.padded > 0 ==> m.padded == (|m.name| + 3) / 4 * 4)
    ensures lname + NamePad(lname) == m.padded
    ensures (if lname > 0 then m.name else "") + Fill('\0', NamePad(lname)) == LongName(m)
  {
  }
}
