/** The bytes of an archive member (cctools/ar/archive.c, archive.h). */
module ArFormat {
  import opened Arith
  import opened Decimal
  import opened Wrappers

  const ARMAG := "!<arch>\n"
  const ARFMAG := "`\n"
  const AR_EFMT1 := "#1/"
  const MAXNAMLEN := 255
  const HEADER_SIZE := 60
  const MAX_SIZE := 10000000000      // what the ten digits of the size field can hold, plus one

  /** A member. The stamp is the date, owner, group and mode as they stand in the header. A long name is written
      after the header, filled up with NULs to the padded length; otherwise that length is zero. */
  datatype Member = Member(name: string, padded: nat, stamp: string, data: string)

  function Fill(c: char, n: nat): (s: string)
    ensures |s| == n && forall i :: 0 <= i < n ==> s[i] == c
  {
    if n == 0 then "" else [c] + Fill(c, n - 1)
  }

  /** A field of a header, padded on the right. */
  function Field(s: string, width: nat): (f: string)
    requires |s| <= width
    ensures |f| == width
  {
    s + Fill(' ', width - |s|)
  }

  predicate IsPrefix(a: string, b: string) {
    |a| <= |b| && b[..|a|] == a
  }

  predicate IsShortName(name: string) {
    && 0 < |name| <= 16 && name[0] != ' ' && name[|name| - 1] != ' ' && !IsPrefix(AR_EFMT1, name)
  }

  predicate IsMember(m: Member) {
    && |m.stamp| == 32 && |m.data| + m.padded < MAX_SIZE && '\0' !in m.name
    && (m.padded == 0 ==> IsShortName(m.name))
    && (m.padded > 0 ==> m.padded % 4 == 0 && |m.name| <= m.padded <= MAXNAMLEN)
  }

  /** The name as it is written after the header. */
  function LongName(m: Member): (s: string)
    requires IsMember(m)
    ensures |s| == m.padded
  {
    if m.padded == 0 then "" else m.name + Fill('\0', m.padded - |m.name|)
  }

  lemma SmallNumbers(n: nat)
    requires n < MAX_SIZE
    ensures |DecimalText(n)| <= 10
    ensures n <= MAXNAMLEN ==> |DecimalText(n)| <= 3
  {
    assert Ten(3) == 1000;
    assert Ten(5) == 100000;
    hide Ten;
    PowAdd(10, 5, 5);
    assert Ten(10) == MAX_SIZE;
    DecimalTextLength(n, 10);
    if n <= MAXNAMLEN {
      DecimalTextLength(n, 3);
    }
  }

  function NameField(m: Member): (f: string)
    requires IsMember(m)
    ensures |f| == 16
  {
    SmallNumbers(m.padded);
    if m.padded == 0 then Field(m.name, 16) else AR_EFMT1 + Field(DecimalText(m.padded), 13)
  }

  function Header(m: Member): (h: string)
    requires IsMember(m)
    ensures |h| == HEADER_SIZE
  {
    SmallNumbers(|m.data| + m.padded);
    NameField(m) + m.stamp + Field(DecimalText(|m.data| + m.padded), 10) + ARFMAG
  }

  /** A newline makes the length even. */
  function Even(n: nat): string {
    if n % 2 == 1 then "\n" else ""
  }

  function Encode(m: Member): string
    requires IsMember(m)
  {
    Header(m) + (LongName(m) + (m.data + Even(|m.data| + m.padded)))
  }

  predicate AreMembers(ms: seq<Member>) {
    forall m :: m in ms ==> IsMember(m)
  }

  function EncodeAll(ms: seq<Member>): string
    requires AreMembers(ms)
  {
    if ms == [] then "" else Encode(ms[0]) + EncodeAll(ms[1..])
  }

  function Archive(ms: seq<Member>): string
    requires AreMembers(ms)
  {
    ARMAG + EncodeAll(ms)
  }

  lemma {:induction false} EncodeAllConcat(a: seq<Member>, b: seq<Member>)
    requires AreMembers(a) && AreMembers(b)
    ensures EncodeAll(a + b) == EncodeAll(a) + EncodeAll(b)
  {
    if a == [] {
      assert a + b == b;
    } else {
      assert (a + b)[1..] == a[1..] + b;
      EncodeAllConcat(a[1..], b);
    }
  }

  lemma EncodeSnoc(a: seq<Member>, m: Member)
    requires AreMembers(a) && IsMember(m)
    ensures EncodeAll(a + [m]) == EncodeAll(a) + Encode(m)
  {
    EncodeAllConcat(a, [m]);
    assert [m][1..] == [];
    assert EncodeAll([m]) == Encode(m);
  }

  // ---------------------------------------------------------------- reading a header

  /** atoi of a text that starts with its digits. */
  function LeadingNumber(s: string): nat {
    var k := RunEnd(s, 0);
    DecimalNat(s[..Clip(s, k)])
  }

  lemma NumberOfField(n: nat, width: nat)
    requires |DecimalText(n)| <= width
    ensures LeadingNumber(Field(DecimalText(n), width)) == n
  {
    DecimalTextStart(n);
    hide DecimalText, RunEnd, DecimalNat;
    var t := DecimalText(n);
    RunOfDigits(Field(t, width), 0, |t|);
    assert Field(t, width)[..|t|] == t;
  }

  lemma {:induction false} RunOfDigits(s: string, p: nat, q: nat)
    requires p <= q <= |s| && (forall i :: p <= i < q ==> IsDigit(s[i])) && !IsDigit(At(s, q))
    ensures RunEnd(s, p) == q
    decreases q - p
  {
    if p < q {
      RunOfDigits(s, p + 1, q);
    }
  }

  function StripBlanks(s: string): (t: string)
    ensures |t| <= |s|
  {
    if s == "" || s[|s| - 1] != ' ' then s else StripBlanks(s[..|s| - 1])
  }

  lemma {:induction false} StripField(s: string, n: nat)
    requires s != "" && s[|s| - 1] != ' '
    ensures StripBlanks(s + Fill(' ', n)) == s
  {
    var f := s + Fill(' ', n);
    if n > 0 {
      FillSnoc(' ', n - 1);
      assert f[..|f| - 1] == s + Fill(' ', n - 1);
      StripField(s, n - 1);
    } else {
      assert f == s;
    }
  }

  lemma {:induction false} FillSnoc(c: char, n: nat)
    ensures Fill(c, n + 1) == Fill(c, n) + [c]
  {
    if n > 0 {
      FillSnoc(c, n - 1);
    }
  }

  /** A C string: what comes before the first NUL. */
  function CString(s: string): (t: string)
    ensures |t| <= |s|
  {
    if s == "" || s[0] == '\0' then "" else [s[0]] + CString(s[1..])
  }

  lemma {:induction false} CStringOfPadded(s: string, n: nat)
    requires '\0' !in s
    ensures CString(s + Fill('\0', n)) == s
  {
    if s != "" {
      assert (s + Fill('\0', n))[1..] == s[1..] + Fill('\0', n);
      CStringOfPadded(s[1..], n);
    } else {
      assert s + Fill('\0', n) == Fill('\0', n);
    }
  }

  /** What get_arobj takes from the sixty bytes: the length of a long name or the short name itself, and the size with
      the long name included. None is a bad format. */
  datatype Parsed = Parsed(lname: nat, shortName: string, stamp: string, size: nat)

  function ParseHeader(h: string): (r: Option<Parsed>)
    requires |h| == HEADER_SIZE
    ensures r.Some? ==> |r.value.stamp| == 32
  {
    if h[58..60] != ARFMAG || h[0] == ' ' then None
    else if IsPrefix(AR_EFMT1, h) then
      var n := LeadingNumber(h[3..16]);
      if n == 0 || n > MAXNAMLEN then None else Some(Parsed(n, "", h[16..48], LeadingNumber(h[48..58])))
    else Some(Parsed(0, StripBlanks(h[..16]), h[16..48], LeadingNumber(h[48..58])))
  }

  /** A header that was written is read back. */
  lemma HeaderRoundTrip(m: Member)
    requires IsMember(m)
    ensures ParseHeader(Header(m))
      == Some(Parsed(m.padded, if m.padded == 0 then m.name else "", m.stamp, |m.data| + m.padded))
  {
    hide DecimalText, LeadingNumber, StripBlanks, Fill;
    SmallNumbers(m.padded);
    SmallNumbers(|m.data| + m.padded);
    NumberOfField(|m.data| + m.padded, 10);
    var h, f := Header(m), NameField(m);
    assert h[..16] == f && h[16..48] == m.stamp && h[58..60] == ARFMAG;
    assert h[48..58] == Field(DecimalText(|m.data| + m.padded), 10);
    if m.padded == 0 {
      StripField(m.name, 16 - |m.name|);
      assert h[0] == m.name[0];
      ShortFieldIsShort(m.name);
      assert h[..3] == f[..3];
    } else {
      NumberOfField(m.padded, 13);
      assert h[3..16] == Field(DecimalText(m.padded), 13);
      assert h[..3] == AR_EFMT1;
    }
  }

  /** Are these characters the text, and after it only the filler? */
  predicate Holds(h: string, from: nat, to: nat, text: string, filler: char)
    requires from <= to <= |h|
  {
    && |text| <= to - from && h[from..from + |text|] == text
    && forall i :: from + |text| <= i < to ==> h[i] == filler
  }

  /** The common format of archives, place by place: sixteen characters for the name or the length of a long one, the stamp,
      ten for the size, two that end the header; then the long name up to its padded length, the contents, and a newline
      after an odd number of bytes. */
  lemma MemberBytes(m: Member)
    requires IsMember(m)
    ensures var b, start, end := Encode(m), 60 + m.padded, 60 + m.padded + |m.data|;
      && |b| == end + end % 2
      && (if m.padded == 0 then Holds(b, 0, 16, m.name, ' ') else Holds(b, 0, 16, "#1/" + DecimalText(m.padded), ' '))
      && b[16..48] == m.stamp && Holds(b, 48, 58, DecimalText(m.padded + |m.data|), ' ') && b[58..60] == "`\n"
      && (m.padded > 0 ==> Holds(b, 60, start, m.name, '\0'))
      && b[start..end] == m.data && (end % 2 == 1 ==> b[end] == '\n')
  {
    hide DecimalText, Header, LongName, Holds, IsMember, Even;
    HeaderBytes(m);
    var h, b := Header(m), Encode(m);
    var rest := LongName(m) + (m.data + Even(|m.data| + m.padded));
    assert b == h + rest && b[..60] == h;
    assert b[16..48] == h[16..48] && b[58..60] == h[58..60];
    HoldsIn(b, h, 0, 16, m.name);
    HoldsIn(b, h, 0, 16, "#1/" + DecimalText(m.padded));
    HoldsIn(b, h, 48, 58, DecimalText(m.padded + |m.data|));
    BytesAfterHeader(m, h);
  }

  lemma HoldsIn(b: string, h: string, from: nat, to: nat, text: string)
    requires from <= to <= |h| <= |b| && b[..|h|] == h
    ensures Holds(b, from, to, text, ' ') <==> Holds(h, from, to, text, ' ')
  {
    assert forall i :: 0 <= i < |h| ==> b[i] == h[i];
    assert |text| <= to - from ==> b[from..from + |text|] == h[from..from + |text|];
  }

  lemma BytesAfterHeader(m: Member, h: string)
    requires IsMember(m) && |h| == 60
    ensures var b, start, end := h + (LongName(m) + (m.data + Even(|m.data| + m.padded))), 60 + m.padded, 60 + m.padded + |m.data|;
      && |b| == end + end % 2 && (m.padded > 0 ==> Holds(b, 60, start, m.name, '\0'))
      && b[start..end] == m.data && (end % 2 == 1 ==> b[end] == '\n')
  {
    var l := LongName(m);
    hide LongName;
    var b := h + (l + (m.data + Even(|m.data| + m.padded)));
    assert b[60..60 + m.padded] == l;
    assert forall i :: 0 <= i < |l| ==> b[60 + i] == l[i];
    if m.padded > 0 {
      LongNameHolds(m, l);
    }
  }

  lemma LongNameHolds(m: Member, l: string)
    requires IsMember(m) && m.padded > 0 && l == LongName(m)
    ensures l[..|m.name|] == m.name && forall i :: |m.name| <= i < |l| ==> l[i] == '\0'
  {
  }

  lemma HeaderBytes(m: Member)
    requires IsMember(m)
    ensures var h := Header(m);
      && (if m.padded == 0 then Holds(h, 0, 16, m.name, ' ') else Holds(h, 0, 16, "#1/" + DecimalText(m.padded), ' '))
      && h[16..48] == m.stamp && Holds(h, 48, 58, DecimalText(m.padded + |m.data|), ' ') && h[58..60] == "`\n"
  {
    SmallNumbers(m.padded);
    SmallNumbers(|m.data| + m.padded);
    hide DecimalText;
    var f, t := NameField(m), Field(DecimalText(|m.data| + m.padded), 10);
    var h := Header(m);
    assert h[..16] == f && h[48..58] == t;
    assert forall i :: 0 <= i < 16 ==> h[i] == f[i];
    assert forall i :: 0 <= i < 10 ==> h[48 + i] == t[i];
  }

  lemma ShortFieldIsShort(name: string)
    requires IsShortName(name)
    ensures Field(name, 16)[..3] != AR_EFMT1
  {
    var f := Field(name, 16);
    if |name| >= 3 {
      assert f[..3] == name[..3];
    } else if |name| == 2 {
      assert f[2] == ' ' && AR_EFMT1[2] == '/';
    } else {
      assert f[1] == ' ' && AR_EFMT1[1] == '1';
    }
  }
}
