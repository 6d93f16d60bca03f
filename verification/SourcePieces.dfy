/** What comes out of a source file, piece by piece (cctools/as/app.c): text as it is, less blanks and comments, with character
    constants as numbers and line markers as directives. */
module SourcePieces {
  import opened Decimal
  import opened Scrubber
  import opened ScrubbedText
  import opened Wrappers

  // ---------------------------------------------------------------- the pieces of a file

  /** Part of a string: a character, or one after a backslash. */
  datatype Item = Char(c: char) | Escape(c: char)

  datatype FileName = FileName(blanks: string, items: seq<Item>)

  datatype Piece =
    | Plain(c: char)                          // a character without a meaning of its own
    | Slash                                   // a slash that starts no comment
    | Blanks(text: string)
    | Comment(inner: string)                  // between /* and */
    | Slashes(inner: string)                  // from // to before the newline
    | LineRest(mark: char, inner: string)     // from a comment character on, newline included
    | Marker(mark: char, blanks: string, digits: string, file: Option<FileName>, trail: string)
    | Text(items: seq<Item>)                  // a string
    | Quoted(c: char)
    | Newline
    | Separator
    | Colon

  function ItemsText(items: seq<Item>): string {
    if items == [] then "" else
      (match items[0] case Char(c) => [c] case Escape(c) => ['\\', c]) + ItemsText(items[1..])
  }

  function Source(t: Target, p: Piece): string {
    match p
    case Plain(c) => [c]
    case Slash => "/"
    case Blanks(s) => s
    case Comment(inner) => "/*" + inner + "*/"
    case Slashes(inner) => "//" + inner
    case LineRest(mark, inner) => [mark] + inner + "\n"
    case Marker(mark, blanks, digits, None, trail) => [mark] + blanks + digits + trail + "\n"
    case Marker(mark, blanks, digits, Some(FileName(gap, items)), trail) =>
      [mark] + blanks + digits + gap + "\"" + ItemsText(items) + "\"" + trail + "\n"
    case Text(items) => "\"" + ItemsText(items) + "\""
    case Quoted(c) => ['\'', c]
    case Newline => "\n"
    case Separator => [t.separator]
    case Colon => ":"
  }

  function SourceOf(t: Target, ps: seq<Piece>): string {
    if ps == [] then "" else Source(t, ps[0]) + SourceOf(t, ps[1..])
  }

  // ---------------------------------------------------------------- what comes of them

  /** A string comes out as it is, but that a newline after a backslash comes out as another backslash and an n. */
  function ItemsOut(items: seq<Item>): string {
    if items == [] then "" else
      (match items[0] case Char(c) => [c] case Escape(c) => if c == '\n' then "\\\\n" else ['\\', c]) + ItemsOut(items[1..])
  }

  /** Newlines after a backslash, which come out later. */
  function Continuations(items: seq<Item>): nat {
    if items == [] then 0 else (if items[0] == Escape('\n') then 1 else 0) + Continuations(items[1..])
  }

  /** All but blanks. Newlines in comments, and after a backslash in a string, come out with the next newline outside them. */
  function Output(t: Target, ps: seq<Piece>, owed: nat): string {
    if ps == [] then "" else
      var rest := ps[1..];
      match ps[0]
      case Plain(c) => [c] + Output(t, rest, owed)
      case Slash => "/" + Output(t, rest, owed)
      case Blanks(_) => Output(t, rest, owed)
      case Comment(inner) => Output(t, rest, owed + Newlines(inner))
      case Slashes(_) => Output(t, rest, owed)
      case LineRest(_, _) => "\n" + Output(t, rest, owed)
      case Marker(_, _, digits, None, _) => ".line" + digits + "\n" + Output(t, rest, owed)
      case Marker(_, _, digits, Some(FileName(_, items)), _) =>
        ".line" + digits + [t.separator] + ".file\"" + ItemsOut(items) + "\"" + "\n" + Output(t, rest, owed + Continuations(items))
      case Text(items) => "\"" + ItemsOut(items) + "\"" + Output(t, rest, owed + Continuations(items))
      case Quoted(c) => "(" + DecimalText(c as nat % 256) + ")" + Output(t, rest, owed)
      case Newline => NewlinesOf(owed + 1) + Output(t, rest, 0)
      case Separator => [t.separator] + Output(t, rest, owed)
      case Colon => ":" + Output(t, rest, owed)
  }

  // ---------------------------------------------------------------- which pieces may follow each other

  /** Where on its line a piece stands: at the start, where a line comment can begin, within it, or, after a colon, where both is
      possible. */
  datatype Line = Start | Within | Unsure

  predicate AllWhite(s: string) {
    forall i :: 0 <= i < |s| ==> IsWhite(s[i])
  }

  /** The first character that is no blank. */
  predicate LeadsTo(s: string, i: nat) {
    i < |s| && !IsWhite(s[i]) && AllWhite(s[..i])
  }

  ghost predicate LeadsToDigit(s: string) {
    exists i: nat :: LeadsTo(s, i) && IsDigit(s[i])
  }

  ghost predicate LeadsToQuote(s: string) {
    exists i: nat :: LeadsTo(s, i) && s[i] == '"'
  }

  predicate AreItems(items: seq<Item>) {
    forall i :: 0 <= i < |items| ==> items[i].Char? ==> items[i].c !in {'"', '\\'}
  }

  /** The first end of a comment is the one after the text. */
  predicate IsInner(inner: string) {
    forall i :: 0 <= i < |inner| ==> !(inner[i] == '*' && (inner + "*")[i + 1] == '/')
  }

  /** Blanks before this character are dropped without a trace at the start of a line. */
  predicate IsLow(t: Target, next: string) {
    next != "" && (next[0] in t.comments || next[0] in t.lineComments || next[0] == '/' || IsSeparator(t, next[0]))
  }

  function AfterGap(t: Target, line: Line, next: string): Line {
    if line.Start? && !IsLow(t, next) then Within else line
  }

  predicate StartsNoComment(t: Target, next: string) {
    next != "" ==> next[0] != '*' && !(t.slashes && next[0] == '/')
  }

  ghost predicate IsPiece(t: Target, p: Piece, line: Line, next: string) {
    match p
    case Plain(c) =>
      && c !in {' ', '\t', '\n', ':', '"', '\'', '/', t.separator} && c !in t.comments
      && (c in t.lineComments ==> line.Within?)
    case Slash => '/' !in t.comments && ('/' in t.lineComments ==> line.Within?) && StartsNoComment(t, next)
    case Blanks(s) => s != "" && s[0] in {' ', '\t'} && AllWhite(s) && (next != "" ==> !IsWhite(next[0]))
    case Comment(inner) => IsInner(inner) && (next != "" ==> next[0] != '\r')
    case Slashes(inner) => t.slashes && '\n' !in inner && next != "" && next[0] == '\n'
    case LineRest(mark, inner) =>
      && mark != t.separator && '\n' !in inner && (mark == '/' ==> StartsNoComment(t, inner + "\n"))
      && (mark in t.comments || (line.Start? && mark in t.lineComments))
      && (mark in t.lineComments && !line.Within? ==> !LeadsToDigit(inner))
    case Marker(mark, blanks, digits, file, trail) =>
      && line.Start? && mark in t.lineComments && mark != t.separator
      && AllWhite(blanks) && digits != "" && AllDigits(digits) && '\n' !in trail
      && (file.None? ==> (trail != "" ==> !IsDigit(trail[0])) && !LeadsToQuote(trail))
      && (file.Some? ==> AllWhite(file.value.blanks) && AreItems(file.value.items))
    case Text(items) => AreItems(items)
    case _ => true
  }

  function LineAfter(t: Target, p: Piece, line: Line, next: string): Line {
    match p
    case Plain(_) => Within
    case Blanks(_) => AfterGap(t, line, next)
    case Comment(_) => if next != "" && IsWhite(next[0]) then line else AfterGap(t, line, next)
    case LineRest(_, _) => Start
    case Marker(_, _, _, _, _) => Start
    case Newline => Start
    case Separator => Start
    case Colon => if line.Start? then Start else Unsure
    case _ => line
  }

  ghost predicate ArePieces(t: Target, ps: seq<Piece>, line: Line) {
    ps == [] ||
    var next := SourceOf(t, ps[1..]);
    IsPiece(t, ps[0], line, next) && ArePieces(t, ps[1..], LineAfter(t, ps[0], line, next))
  }

  predicate Agrees(line: Line, state: int) {
    match line
    case Start => state == 0
    case Within => state in {1, 2, 3, 9, 10}
    case Unsure => state in {0, 1, 2, 3, 9, 10}
  }

  // ---------------------------------------------------------------- runs of characters

  lemma {:induction false} WhiteSkipped(s: string, next: string)
    requires AllWhite(s) && (next != "" ==> !IsWhite(next[0]))
    ensures AfterWhite(s + next) == next
  {
    if s == "" {
      assert s + next == next;
    } else {
      assert (s + next)[1..] == s[1..] + next;
      WhiteSkipped(s[1..], next);
    }
  }

  lemma {:induction false} LineSkipped(s: string, next: string)
    requires '\n' !in s && (next == "" || next[0] == '\n')
    ensures LineEnd(s + next) == next
  {
    if s == "" {
      assert s + next == next;
    } else {
      assert (s + next)[1..] == s[1..] + next;
      LineSkipped(s[1..], next);
    }
  }

  lemma {:induction false} CommentSkipped(inner: string, next: string)
    requires IsInner(inner)
    ensures CommentEnd(inner + "*/" + next) == next && CommentNewlines(inner + "*/" + next) == Newlines(inner)
  {
    var s := inner + "*/" + next;
    if inner == "" {
      assert s[2..] == next;
    } else {
      assert s[1..] == inner[1..] + "*/" + next;
      assert s[0] == inner[0] && s[1] == (inner + "*/")[1] && (inner + "*")[0 + 1] == (inner + "*/")[1];
      InnerLater(inner);
      CommentSkipped(inner[1..], next);
    }
  }

  lemma InnerLater(inner: string)
    requires inner != "" && IsInner(inner)
    ensures IsInner(inner[1..])
  {
    forall i | 0 <= i < |inner| - 1 ensures !(inner[1..][i] == '*' && (inner[1..] + "*")[i + 1] == '/') {
      assert inner[1..][i] == inner[i + 1] && (inner[1..] + "*")[i + 1] == (inner + "*")[i + 1 + 1];
    }
  }

  lemma {:induction false} WhitePrefix(s: string, next: string)
    requires next != "" && !IsWhite(next[0])
    ensures AfterWhite(s + next) == AfterWhite(s) + next
  {
    if s == "" {
      assert s + next == next;
    } else {
      assert (s + next)[1..] == s[1..] + next;
      if IsWhite(s[0]) {
        WhitePrefix(s[1..], next);
      }
    }
  }

  lemma {:induction false} WhiteLeads(s: string)
    ensures var r := AfterWhite(s);
      |r| <= |s| && r == s[|s| - |r|..] && (r != "" ==> LeadsTo(s, |s| - |r|))
  {
    if s != "" && IsWhite(s[0]) {
      WhiteLeads(s[1..]);
      var r := AfterWhite(s);
      var i := |s| - |r|;
      assert s[..i] == [s[0]] + s[1..][..i - 1];
    } else if s != "" {
      assert s[..0] == "";
    }
  }

  // ---------------------------------------------------------------- strings

  /** What comes after the quote that ends a string. */
  function AfterString(t: Target, p: Place, next: string): string {
    if p.state == 8 then DroppedRest(t, p, next) else Clean(t, p, next)
  }

  lemma {:induction false} ItemsComeOut(t: Target, p: Place, items: seq<Item>, next: string)
    requires AreItems(items)
    ensures StringRest(t, p, ItemsText(items) + "\"" + next)
      == ItemsOut(items) + "\"" + AfterString(t, p.(owed := p.owed + Continuations(items)), next)
    decreases |items|
  {
    hide StringRest, AfterString, ItemsText, ItemsOut, Continuations;
    ItemsFront(items);
    if items == [] {
      QuoteComesOut(t, p, next);
    } else {
      var tail := items[1..];
      var q := p.(owed := p.owed + Continuations([items[0]]));
      ItemsComeOut(t, q, tail, next);
      ItemComesOut(t, p, items[0], ItemsText(tail) + "\"" + next);
      Regroup(ItemsText([items[0]]), ItemsText(tail), next);
      Regroup(ItemsOut([items[0]]), ItemsOut(tail), AfterString(t, p.(owed := p.owed + Continuations(items)), next));
    }
  }

  lemma Regroup(a: string, b: string, next: string)
    ensures (a + b) + "\"" + next == a + (b + "\"" + next)
  {
  }

  lemma ItemsFront(items: seq<Item>)
    ensures items == [] ==> ItemsText(items) == "" && ItemsOut(items) == "" && Continuations(items) == 0
    ensures items != [] ==>
      var one, tail := [items[0]], items[1..];
      && ItemsText(items) == ItemsText(one) + ItemsText(tail) && ItemsOut(items) == ItemsOut(one) + ItemsOut(tail)
      && Continuations(items) == Continuations(one) + Continuations(tail)
  {
    if items != [] {
      OneItem(items[0]);
    }
  }

  lemma OneItem(item: Item)
    ensures ItemsText([item]) == match item case Char(c) => [c] case Escape(c) => ['\\', c]
    ensures ItemsOut([item]) == match item case Char(c) => [c] case Escape(c) => if c == '\n' then "\\\\n" else ['\\', c]
    ensures Continuations([item]) == if item == Escape('\n') then 1 else 0
  {
    assert [item][1..] == [];
  }

  lemma ItemComesOut(t: Target, p: Place, item: Item, rest: string)
    requires item.Char? ==> item.c !in {'"', '\\'}
    ensures StringRest(t, p, ItemsText([item]) + rest)
      == ItemsOut([item]) + StringRest(t, p.(owed := p.owed + Continuations([item])), rest)
  {
    hide StringRest;
    OneItem(item);
    match item
    case Char(c) => CharComesOut(t, p, c, rest);
    case Escape(c) => EscapeComesOut(t, p, c, rest);
  }

  lemma QuoteComesOut(t: Target, p: Place, next: string)
    ensures StringRest(t, p, "" + "\"" + next) == "" + "\"" + AfterString(t, p.(owed := p.owed + 0), next)
  {
    assert ("" + "\"" + next)[1..] == next;
    hide Clean, DroppedRest;
  }

  lemma CharComesOut(t: Target, p: Place, c: char, rest: string)
    requires c !in {'"', '\\'}
    ensures StringRest(t, p, [c] + rest) == [c] + StringRest(t, p, rest)
  {
    assert ([c] + rest)[1..] == rest;
    hide Clean, DroppedRest;
  }

  lemma EscapeComesOut(t: Target, p: Place, c: char, rest: string)
    ensures StringRest(t, p, ['\\', c] + rest)
      == if c == '\n' then "\\\\n" + StringRest(t, p.(owed := p.owed + 1), rest) else ['\\', c] + StringRest(t, p, rest)
  {
    var text := ['\\', c] + rest;
    assert text[1..] == [c] + rest && text[1..][1..] == rest;
    hide Clean, DroppedRest;
  }

  // ---------------------------------------------------------------- one piece

  /** The piece comes out and leaves a place that agrees with what is known of the line. */
  ghost predicate ComesOut(t: Target, p: Place, text: string, out: string, owed: nat, line: Line, next: string) {
    exists q: Place :: Agrees(line, q.state) && q.owed == owed && Clean(t, p, text) == out + Clean(t, q, next)
  }

  lemma PlainComesOut(t: Target, p: Place, c: char, line: Line, next: string)
    requires IsTarget(t) && Agrees(line, p.state) && IsPiece(t, Plain(c), line, next)
    ensures ComesOut(t, p, [c] + next, [c], p.owed, Within, next)
  {
    assert ([c] + next)[1..] == next;
    var q := p.(state := AfterPlain(AtPlain(p.state, c)));
    assert Clean(t, p, [c] + next) == [c] + Clean(t, q, next);
  }

  lemma SlashComesOut(t: Target, p: Place, line: Line, next: string)
    requires IsTarget(t) && Agrees(line, p.state) && IsPiece(t, Slash, line, next)
    ensures ComesOut(t, p, "/" + next, "/", p.owed, line, next)
  {
    assert ("/" + next)[1..] == next;
    assert Clean(t, p, "/" + next) == "/" + Clean(t, p, next);
  }

  /** Blanks up to a character that is none. */
  lemma BlanksComeOut(t: Target, p: Place, s: string, line: Line, next: string)
    requires IsTarget(t) && Agrees(line, p.state) && IsPiece(t, Blanks(s), line, next)
    ensures ComesOut(t, p, s + next, "", p.owed, AfterGap(t, line, next), next)
  {
    var text := s + next;
    assert text[0] == s[0] && text[1..] == s[1..] + next;
    WhiteSkipped(s[1..], next);
    hide PlainRest, AfterWhite;
    if next == "" {
      assert Clean(t, p, text) == "" + Clean(t, PlaceFor(AfterGap(t, line, next), p), next);
    } else {
      var q := AfterBlanks(t, p, next[0]);
      assert Clean(t, p, text) == "" + Clean(t, q, next);
    }
  }

  function PlaceFor(line: Line, p: Place): Place {
    p.(state := if line.Within? then 1 else 0)
  }

  lemma BlankBeforeBlank(t: Target, p: Place, next: string)
    requires next != "" && next[0] in {' ', '\t'}
    ensures Clean(t, p, " " + next) == Clean(t, p, next)
  {
    assert (" " + next)[1..] == next;
    hide PlainRest;
  }

  lemma CommentComesOut(t: Target, p: Place, inner: string, line: Line, next: string)
    requires IsTarget(t) && Agrees(line, p.state) && IsPiece(t, Comment(inner), line, next)
    ensures ComesOut(t, p, "/*" + inner + "*/" + next, "", p.owed + Newlines(inner), LineAfter(t, Comment(inner), line, next), next)
  {
    hide CommentEnd, CommentNewlines, Newlines;
    var text, q := "/*" + inner + "*/" + next, p.(owed := p.owed + Newlines(inner));
    CommentSkipped(inner, next);
    CommentClean(t, p, text, inner + "*/" + next);
    hide Clean;
    if next != "" && IsWhite(next[0]) {
      BlankBeforeBlank(t, q, next);
      assert Clean(t, p, text) == "" + Clean(t, q, next);
    } else {
      BlanksComeOut(t, q, " ", line, next);
    }
  }

  lemma CommentClean(t: Target, p: Place, text: string, body: string)
    requires text == "/*" + body
    ensures Clean(t, p, text) == Clean(t, p.(owed := p.owed + CommentNewlines(body)), " " + CommentEnd(body))
  {
    assert text[0] == '/' && text[1..] == "*" + body && text[1..][0] == '*' && text[1..][1..] == body;
  }

  lemma SlashesComeOut(t: Target, p: Place, inner: string, line: Line, next: string)
    requires IsTarget(t) && Agrees(line, p.state) && IsPiece(t, Slashes(inner), line, next)
    ensures ComesOut(t, p, "//" + inner + next, "", p.owed, line, next)
  {
    var text := "//" + inner + next;
    LineSkipped(inner, next);
    assert text[0] == '/' && text[1..][0] == '/' && text[1..][1..] == inner + next;
    assert Clean(t, p, text) == "" + Clean(t, p, next) by {
      hide AfterWhite, PlainRest, LineEnd;
    }
  }

  lemma TextComesOut(t: Target, p: Place, items: seq<Item>, line: Line, next: string)
    requires IsTarget(t) && Agrees(line, p.state) && AreItems(items)
    ensures ComesOut(t, p, "\"" + ItemsText(items) + "\"" + next, "\"" + ItemsOut(items) + "\"", p.owed + Continuations(items), line, next)
  {
    hide Clean, StringRest, ItemsText, ItemsOut, Continuations;
    var text, q := "\"" + ItemsText(items) + "\"" + next, p.(owed := p.owed + Continuations(items));
    InQuotes(ItemsText(items), next);
    ItemsComeOut(t, p, items, next);
    QuoteClean(t, p, text);
    InQuotes(ItemsOut(items), Clean(t, q, next));
    BetweenStrings(t, p, q, line, next);
    assert Clean(t, p, text) == ("\"" + ItemsOut(items) + "\"") + Clean(t, q, next);
  }

  lemma InQuotes(body: string, next: string)
    ensures "\"" + body + "\"" + next != "" && ("\"" + body + "\"" + next)[0] == '"'
    ensures ("\"" + body + "\"" + next)[1..] == body + "\"" + next
    ensures "\"" + (body + "\"" + next) == ("\"" + body + "\"") + next
  {
  }

  lemma BetweenStrings(t: Target, p: Place, q: Place, line: Line, next: string)
    requires Agrees(line, p.state) && q == p.(owed := q.owed)
    ensures Agrees(line, q.state) && AfterString(t, q, next) == Clean(t, q, next)
  {
  }

  lemma QuoteClean(t: Target, p: Place, text: string)
    requires text != "" && text[0] == '"'
    ensures Clean(t, p, text) == "\"" + StringRest(t, p, text[1..])
  {
  }

  lemma QuotedComesOut(t: Target, p: Place, c: char, line: Line, next: string)
    requires Agrees(line, p.state)
    ensures ComesOut(t, p, ['\'', c] + next, "(" + DecimalText(c as nat % 256) + ")", p.owed, line, next)
  {
    hide Clean, DecimalText;
    assert ['\'', c] + next == ['\''] + ([c] + next);
    QuotedClean(t, p, [c] + next);
    assert ([c] + next)[1..] == next;
  }

  lemma MarksComeOut(t: Target, p: Place, line: Line, next: string)
    requires IsTarget(t) && Agrees(line, p.state)
    ensures ComesOut(t, p, "\n" + next, NewlinesOf(p.owed + 1), 0, Start, next)
    ensures ComesOut(t, p, [t.separator] + next, [t.separator], p.owed, Start, next)
    ensures ComesOut(t, p, ":" + next, ":", p.owed, LineAfter(t, Colon, line, next), next)
  {
    assert ("\n" + next)[1..] == ([t.separator] + next)[1..] == (":" + next)[1..] == next;
    assert Clean(t, p, "\n" + next) == NewlinesOf(p.owed + 1) + Clean(t, Place(0, 0, 0), next);
    assert Clean(t, p, [t.separator] + next) == [t.separator] + Clean(t, Place(0, 0, p.owed), next);
    assert Clean(t, p, ":" + next) == ":" + Clean(t, if p.state == 3 then p else Place(0, 0, p.owed), next);
  }

  // ---------------------------------------------------------------- comments to the end of the line

  /** A comment character gets to the plain characters. */
  lemma MarkClean(t: Target, p: Place, mark: char, rest: string)
    requires IsTarget(t) && mark in t.comments + t.lineComments && mark != t.separator
    requires mark == '/' ==> StartsNoComment(t, rest) && (mark in t.comments || p.state == 0)
    ensures Clean(t, p, [mark] + rest) == PlainRest(t, p, mark, rest)
  {
    assert ([mark] + rest)[1..] == rest;
    hide PlainRest;
  }

  lemma LineRestComesOut(t: Target, p: Place, mark: char, inner: string, line: Line, next: string)
    requires IsTarget(t) && Agrees(line, p.state) && IsPiece(t, LineRest(mark, inner), line, next)
    ensures ComesOut(t, p, [mark] + inner + "\n" + next, "\n", p.owed, Start, next)
  {
    var rest := inner + "\n" + next;
    assert [mark] + inner + "\n" + next == [mark] + rest;
    assert rest != "" && rest[0] == (inner + "\n")[0];
    MarkClean(t, p, mark, rest);
    RestDropped(t, p, inner, next);
    RestIsPlain(t, p, mark, rest, "\n" + Clean(t, Place(0, 0, p.owed), next));
    hide Clean, PlainRest;
    assert Clean(t, p, [mark] + rest) == "\n" + Clean(t, Place(0, 0, p.owed), next);
  }

  lemma RestDropped(t: Target, p: Place, inner: string, next: string)
    requires '\n' !in inner
    ensures EndLineRest(t, Place(0, 0, p.owed), inner + "\n" + next) == "\n" + Clean(t, Place(0, 0, p.owed), next)
    ensures var r := AfterWhite(inner + "\n" + next);
      && EndLineRest(t, Place(0, 0, p.owed), r) == "\n" + Clean(t, Place(0, 0, p.owed), next)
      && r != "" && (IsDigit(r[0]) ==> LeadsToDigit(inner))
  {
    hide Clean, AfterWhite;
    var tail, r := "\n" + next, AfterWhite(inner);
    assert inner + "\n" + next == inner + tail && tail[1..] == next;
    LineSkipped(inner, tail);
    WhitePrefix(inner, tail);
    WhiteLeads(inner);
    assert r == inner[|inner| - |r|..];
    LineSkipped(r, tail);
    if r != "" && IsDigit(r[0]) {
      assert LeadsTo(inner, |inner| - |r|) && IsDigit(inner[|inner| - |r|]);
    }
  }

  lemma RestIsPlain(t: Target, p: Place, mark: char, rest: string, out: string)
    requires IsTarget(t) && p.state in {0, 1, 2, 3, 9, 10}
    requires mark in t.comments || (mark in t.lineComments && p.state == 0)
    requires EndLineRest(t, Place(0, 0, p.owed), rest) == EndLineRest(t, Place(0, 0, p.owed), AfterWhite(rest)) == out
    requires p.state == 0 && mark in t.lineComments ==> AfterWhite(rest) != "" && !IsDigit(AfterWhite(rest)[0])
    ensures PlainRest(t, p, mark, rest) == out
  {
    hide Clean, AfterWhite, EndLineRest, LineNumberRest;
  }

  /** What one piece puts out, and the newlines that are owed after it. */
  function OutputOf(t: Target, p: Piece, owed: nat): string {
    match p
    case Plain(c) => [c]
    case Slash => "/"
    case LineRest(_, _) => "\n"
    case Marker(_, _, digits, None, _) => ".line" + digits + "\n"
    case Marker(_, _, digits, Some(FileName(_, items)), _) =>
      ".line" + digits + [t.separator] + ".file\"" + ItemsOut(items) + "\"" + "\n"
    case Text(items) => "\"" + ItemsOut(items) + "\""
    case Quoted(c) => "(" + DecimalText(c as nat % 256) + ")"
    case Newline => NewlinesOf(owed + 1)
    case Separator => [t.separator]
    case Colon => ":"
    case _ => ""
  }

  function OwedAfter(p: Piece, owed: nat): nat {
    match p
    case Comment(inner) => owed + Newlines(inner)
    case Marker(_, _, _, Some(FileName(_, items)), _) => owed + Continuations(items)
    case Text(items) => owed + Continuations(items)
    case Newline => 0
    case _ => owed
  }

  // ---------------------------------------------------------------- line markers

  lemma {:induction false} DigitsComeOut(t: Target, p: Place, digits: string, rest: string)
    requires AllDigits(digits)
    ensures LineNumberRest(t, p, digits + rest) == digits + LineNumberRest(t, p, rest)
  {
    if digits == "" {
      assert digits + rest == rest;
    } else {
      assert (digits + rest)[1..] == digits[1..] + rest;
      hide Clean, AfterWhite, LineEnd;
      DigitsComeOut(t, p, digits[1..], rest);
      assert digits == [digits[0]] + digits[1..];
    }
  }

  lemma DigitsLead(t: Target, p: Place, blanks: string, digits: string, rest: string, mark: char)
    requires IsTarget(t) && p.state == 0 && mark in t.lineComments && mark != t.separator
    requires AllWhite(blanks) && digits != "" && AllDigits(digits)
    ensures Clean(t, p, [mark] + (blanks + (digits + rest))) == ".line" + (digits + LineNumberRest(t, Place(0, p.sub, p.owed), rest))
  {
    var body := blanks + (digits + rest);
    assert (digits + rest)[0] == digits[0] && IsDigit(digits[0]) && !IsWhite(digits[0]);
    assert body[0] == if blanks == "" then digits[0] else blanks[0];
    WhiteSkipped(blanks, digits + rest);
    MarkClean(t, p, mark, body);
    DigitsComeOut(t, Place(0, p.sub, p.owed), digits, rest);
    hide Clean, AfterWhite, EndLineRest, LineNumberRest;
  }

  lemma TrailDropped(t: Target, p: Place, trail: string, next: string)
    requires '\n' !in trail && (trail != "" ==> !IsDigit(trail[0])) && !LeadsToQuote(trail)
    ensures LineNumberRest(t, p, trail + ("\n" + next)) == "\n" + Clean(t, Place(0, p.sub, p.owed), next)
  {
    var tail := "\n" + next;
    var text, r := trail + tail, AfterWhite(trail);
    WhitePrefix(trail, tail);
    WhiteLeads(trail);
    assert r == trail[|trail| - |r|..];
    LineSkipped(r, tail);
    assert text[0] == if trail == "" then '\n' else trail[0];
    assert r != "" ==> (r + tail)[0] == trail[|trail| - |r|];
    assert tail[1..] == next;
    hide Clean, AfterWhite, LineEnd, StringRest;
  }

  lemma FileComesOut(t: Target, p: Place, gap: string, items: seq<Item>, trail: string, next: string)
    requires AllWhite(gap) && AreItems(items) && '\n' !in trail
    ensures LineNumberRest(t, p, gap + ("\"" + (ItemsText(items) + "\"" + (trail + ("\n" + next)))))
      == [t.separator] + ".file\"" + (ItemsOut(items) + "\"" + ("\n" + Clean(t, Place(0, 0, p.owed + Continuations(items)), next)))
  {
    hide Clean, LineNumberRest, StringRest, DroppedRest, ItemsText, ItemsOut, Continuations, AfterWhite;
    var tail := trail + ("\n" + next);
    var body := ItemsText(items) + "\"" + tail;
    WhiteSkipped(gap, "\"" + body);
    NameRead(t, p, gap + ("\"" + body), body);
    ItemsComeOut(t, p.(state := 8), items, tail);
    TrailAfterName(t, p.(state := 8, owed := p.owed + Continuations(items)), trail, next);
  }

  lemma NameRead(t: Target, p: Place, text: string, body: string)
    requires AfterWhite(text) == "\"" + body
    ensures LineNumberRest(t, p, text) == [t.separator] + ".file\"" + StringRest(t, p.(state := 8), body)
  {
    hide Clean, LineEnd, StringRest;
    assert ("\"" + body)[1..] == body;
    assert text != "" && !IsDigit(text[0]);
  }

  lemma TrailAfterName(t: Target, p: Place, trail: string, next: string)
    requires p.state == 8 && '\n' !in trail
    ensures AfterString(t, p, trail + ("\n" + next)) == "\n" + Clean(t, Place(0, 0, p.owed), next)
  {
    hide Clean, LineEnd;
    LineSkipped(trail, "\n" + next);
    assert ("\n" + next)[1..] == next;
  }

  lemma PlainMarkerComesOut(t: Target, p: Place, mark: char, blanks: string, digits: string, trail: string, next: string)
    requires IsTarget(t) && p.state == 0 && IsPiece(t, Marker(mark, blanks, digits, None, trail), Start, next)
    ensures Clean(t, p, [mark] + blanks + digits + trail + "\n" + next) == (".line" + digits + "\n") + Clean(t, Place(0, p.sub, p.owed), next)
  {
    hide Clean, LineNumberRest;
    PlainMarkerText(mark, blanks, digits, trail, next);
    DigitsLead(t, p, blanks, digits, trail + ("\n" + next), mark);
    TrailDropped(t, Place(0, p.sub, p.owed), trail, next);
    Joined(".line", digits, "\n", Clean(t, Place(0, p.sub, p.owed), next));
  }

  lemma PlainMarkerText(mark: char, blanks: string, digits: string, trail: string, next: string)
    ensures [mark] + blanks + digits + trail + "\n" + next == [mark] + (blanks + (digits + (trail + ("\n" + next))))
  {
  }

  lemma Joined(a: string, b: string, c: string, d: string)
    ensures a + (b + (c + d)) == (a + b + c) + d
  {
  }

  lemma NamedMarkerComesOut(t: Target, p: Place, mark: char, blanks: string, digits: string, gap: string, items: seq<Item>,
                            trail: string, next: string)
    requires IsTarget(t) && p.state == 0 && IsPiece(t, Marker(mark, blanks, digits, Some(FileName(gap, items)), trail), Start, next)
    ensures Clean(t, p, [mark] + blanks + digits + gap + "\"" + ItemsText(items) + "\"" + trail + "\n" + next)
      == (".line" + digits + [t.separator] + ".file\"" + ItemsOut(items) + "\"" + "\n")
         + Clean(t, Place(0, 0, p.owed + Continuations(items)), next)
  {
    hide Clean, LineNumberRest, ItemsText, ItemsOut;
    var rest := gap + ("\"" + (ItemsText(items) + "\"" + (trail + ("\n" + next))));
    NamedMarkerText(mark, blanks, digits, gap, ItemsText(items), trail, next);
    DigitsLead(t, p, blanks, digits, rest, mark);
    FileComesOut(t, Place(0, p.sub, p.owed), gap, items, trail, next);
    NamedMarkerOut(digits, t.separator, ItemsOut(items), Clean(t, Place(0, 0, p.owed + Continuations(items)), next));
  }

  lemma NamedMarkerText(mark: char, blanks: string, digits: string, gap: string, items: string, trail: string, next: string)
    ensures [mark] + blanks + digits + gap + "\"" + items + "\"" + trail + "\n" + next
      == [mark] + (blanks + (digits + (gap + ("\"" + (items + "\"" + (trail + ("\n" + next)))))))
  {
  }

  lemma NamedMarkerOut(digits: string, separator: char, items: string, next: string)
    ensures ".line" + (digits + ([separator] + ".file\"" + (items + "\"" + ("\n" + next))))
      == (".line" + digits + [separator] + ".file\"" + items + "\"" + "\n") + next
  {
  }

  lemma MarkerComesOut(t: Target, p: Place, m: Piece, line: Line, next: string)
    requires IsTarget(t) && Agrees(line, p.state) && m.Marker? && IsPiece(t, m, line, next)
    ensures ComesOut(t, p, Source(t, m) + next, OutputOf(t, m, p.owed), OwedAfter(m, p.owed), Start, next)
  {
    hide Clean, ItemsOut, ItemsText, IsPiece, Continuations;
    assert line.Start? by { MarkerStarts(t, m, line, next); }
    match m
    case Marker(mark, blanks, digits, None, trail) =>
      PlainMarkerComesOut(t, p, mark, blanks, digits, trail, next);
      assert Clean(t, p, Source(t, m) + next) == OutputOf(t, m, p.owed) + Clean(t, Place(0, p.sub, p.owed), next);
    case Marker(mark, blanks, digits, Some(FileName(gap, items)), trail) =>
      NamedMarkerComesOut(t, p, mark, blanks, digits, gap, items, trail, next);
      assert Clean(t, p, Source(t, m) + next) == OutputOf(t, m, p.owed) + Clean(t, Place(0, 0, p.owed + Continuations(items)), next);
  }

  lemma MarkerStarts(t: Target, m: Piece, line: Line, next: string)
    requires m.Marker? && IsPiece(t, m, line, next)
    ensures line.Start?
  {
  }

  // ---------------------------------------------------------------- whole files

  lemma PieceComesOut(t: Target, p: Place, piece: Piece, line: Line, next: string)
    requires IsTarget(t) && Agrees(line, p.state) && IsPiece(t, piece, line, next)
    ensures ComesOut(t, p, Source(t, piece) + next, OutputOf(t, piece, p.owed), OwedAfter(piece, p.owed),
                     LineAfter(t, piece, line, next), next)
  {
    hide ComesOut, NewlinesOf, DecimalText, ItemsOut, ItemsText, Continuations, Newlines;
    match piece
    case Plain(c) => PlainComesOut(t, p, c, line, next);
    case Slash => SlashComesOut(t, p, line, next);
    case Blanks(s) => BlanksComeOut(t, p, s, line, next);
    case Comment(inner) => CommentComesOut(t, p, inner, line, next);
    case Slashes(inner) => SlashesComeOut(t, p, inner, line, next);
    case LineRest(mark, inner) => LineRestComesOut(t, p, mark, inner, line, next);
    case Marker(_, _, _, _, _) => MarkerComesOut(t, p, piece, line, next);
    case Text(items) => TextComesOut(t, p, items, line, next);
    case Quoted(c) => QuotedComesOut(t, p, c, line, next);
    case _ => MarksComeOut(t, p, line, next);
  }

  lemma {:induction false} PiecesComeOut(t: Target, p: Place, ps: seq<Piece>, line: Line)
    requires IsTarget(t) && Agrees(line, p.state) && ArePieces(t, ps, line)
    ensures Clean(t, p, SourceOf(t, ps)) == Output(t, ps, p.owed)
    decreases |ps|
  {
    hide Clean, Source, OutputOf, OwedAfter, LineAfter, IsPiece, Agrees;
    if ps == [] {
      NothingToClean(t, p);
    } else {
      var next := SourceOf(t, ps[1..]);
      PieceComesOut(t, p, ps[0], line, next);
      var q: Place :| Agrees(LineAfter(t, ps[0], line, next), q.state) && q.owed == OwedAfter(ps[0], p.owed)
        && Clean(t, p, Source(t, ps[0]) + next) == OutputOf(t, ps[0], p.owed) + Clean(t, q, next);
      PiecesComeOut(t, q, ps[1..], LineAfter(t, ps[0], line, next));
      OutputFront(t, ps, p.owed);
    }
  }

  lemma NothingToClean(t: Target, p: Place)
    ensures Clean(t, p, "") == ""
  {
  }

  lemma OutputFront(t: Target, ps: seq<Piece>, owed: nat)
    requires ps != []
    ensures Output(t, ps, owed) == OutputOf(t, ps[0], owed) + Output(t, ps[1..], OwedAfter(ps[0], owed))
  {
    hide NewlinesOf, DecimalText, ItemsOut, Continuations, Newlines;
  }

  /** Over every run through a file of complete lines, what has come out, less blanks outside strings, and what is still to come
      are the output of the file's pieces. */
  lemma RunIsScrubbed(t: Target, ps: seq<Piece>, n: nat)
    requires IsTarget(t) && ArePieces(t, ps, Start) && Lines(SourceOf(t, ps))
    ensures var run := RunOf(t, Scrub(0, 0, 0, "", 0, SourceOf(t, ps)), n);
      && Solid(Outside, run.text) + Coming(t, run.s) == Output(t, ps, 0)
      && (run.s.input == "" ==> Solid(Outside, run.text) + LeftOver(run.s) == Output(t, ps, 0))
  {
    hide *;
    RunOfFile(t, SourceOf(t, ps), n);
    StartAgrees();
    PiecesComeOut(t, Place(0, 0, 0), ps, Start);
  }

  lemma StartAgrees()
    ensures Agrees(Start, 0)
  {
  }

  /** The main result: enough calls read the file to its end, and then the output of its pieces has come out. */
  lemma FileIsScrubbed(t: Target, ps: seq<Piece>, n: nat)
    requires IsTarget(t) && ArePieces(t, ps, Start) && Lines(SourceOf(t, ps)) && n >= Load(Scrub(0, 0, 0, "", 0, SourceOf(t, ps)))
    ensures var run := RunOf(t, Scrub(0, 0, 0, "", 0, SourceOf(t, ps)), n);
      run.s.input == "" && Solid(Outside, run.text) + LeftOver(run.s) == Output(t, ps, 0)
  {
    hide *;
    AtFirst(SourceOf(t, ps));
    RunEnds(t, Scrub(0, 0, 0, "", 0, SourceOf(t, ps)), n);
    RunIsScrubbed(t, ps, n);
  }

  /** A string that goes on after a backslash and a newline comes out with two backslashes and an n, which stand for a backslash
      and an n and not for a newline. */
  lemma ContinuedStringExample(t: Target)
    requires IsTarget(t)
    ensures var ps := [Text([Escape('\n')]), Newline];
      ArePieces(t, ps, Start) && SourceOf(t, ps) == "\"\\\n\"\n" && Output(t, ps, 0) == "\"\\\\n\"\n\n"
  {
    var items, ps := [Escape('\n')], [Text([Escape('\n')]), Newline];
    assert items[1..] == [] && ps[1..] == [Newline] && ps[1..][1..] == [];
    assert NewlinesOf(2) == "\n" + ("\n" + NewlinesOf(0));
    assert ItemsText(items) == "\\\n" && ItemsOut(items) == "\\\\n" && Continuations(items) == 1;
    assert SourceOf(t, ps[1..]) == "\n";
    assert Output(t, ps[1..], 1) == "\n\n";
    assert ArePieces(t, ps[1..], Start) && ArePieces(t, [], Start);
  }

  // ---------------------------------------------------------------- blanks

  predicate IsGap(t: Target, gap: string, rest: string) {
    && gap != "" && gap[0] in {' ', '\t'} && AllWhite(gap)
    && EndsLine(rest) && !IsWhite(rest[0]) && rest[0] !in t.comments && rest[0] != '/' && !IsSeparator(t, rest[0])
  }

  predicate IsWord(t: Target, word: string) {
    forall i :: 0 <= i < |word| ==>
      word[i] !in {' ', '\t', '\n', ':', '"', '\'', '/', t.separator} && word[i] !in t.comments
  }

  lemma LinesLast(a: string, b: string)
    requires EndsLine(b)
    ensures EndsLine(a + b) && (a != "" ==> (a + b)[0] == a[0] && (a + b)[1..] == a[1..] + b)
  {
  }

  lemma GapStep(t: Target, s: Scrub, gap: string, rest: string)
    requires IsTarget(t) && IsGap(t, gap, rest) && s.input == gap + rest
    requires s.state == 2 || (s.state == 0 && rest[0] !in t.lineComments)
    ensures var r := Next(t, s); r.c == Some(' ') && r.s.input == rest && (s.state == 0 ==> r.s.state == 1)
  {
    LinesLast(gap, rest);
    WhiteSkipped(gap[1..], rest);
    hide AfterWhite;
  }

  lemma OneCall(t: Target, s: Scrub, n: nat)
    requires IsTarget(t) && Valid(s) && Scans(s)
    ensures Ends(s)
    ensures var r := Next(t, s);
      && Valid(r.s) && (r.s.input == "" || Scans(r.s))
      && var run := RunOf(t, r.s, n);
         && RunOf(t, s, n + 1).text == (if r.c.Some? then [r.c.value] else "") + run.text && RunOf(t, s, n + 1).s == run.s
  {
    hide Next, IsTarget, Valid;
    ScansToTheEnd(s);
    NextValid(t, s);
    NextScans(t, s);
  }

  /** Blanks at the start of a line come out as one. */
  lemma IndentComesOut(t: Target, s: Scrub, gap: string, rest: string)
    requires IsTarget(t) && s.state == 0 && IsGap(t, gap, rest) && s.input == gap + rest && rest[0] !in t.lineComments
    ensures Valid(s) && Scans(s)
    ensures var run := RunOf(t, s, 1); run.text == " " && run.s.input == rest && run.s.state == 1
  {
    LinesLast(gap, rest);
    GapStep(t, s, gap, rest);
    hide Next, IsTarget;
    OneCall(t, s, 0);
  }

  lemma LetterStep(t: Target, s: Scrub, c: char, rest: string)
    requires IsTarget(t) && s.state in {0, 1, 2} && IsWord(t, [c]) && s.input == [c] + rest && (s.state == 0 ==> c !in t.lineComments)
    ensures var r := Next(t, s); r.c == Some(c) && r.s == s.(state := 2, input := rest)
  {
    assert [c][0] == c;
    assert s.input[1..] == rest;
    hide LineComment, EndLine;
  }

  /** The first word of a line comes out as it is, and the blanks after it come out as one; with the option for i386 this holds
      of the first two words. */
  lemma {:induction false} WordComesOut(t: Target, s: Scrub, word: string, gap: string, rest: string)
    requires IsTarget(t) && s.state in {0, 1, 2} && IsWord(t, word) && IsGap(t, gap, rest) && s.input == word + (gap + rest)
    requires s.state != 2 ==> word != "" && (s.state == 0 ==> word[0] !in t.lineComments)
    ensures Valid(s) && Scans(s)
    ensures var run := RunOf(t, s, |word| + 1); run.text == word + " " && run.s.input == rest
    decreases |word|
  {
    LinesLast(gap, rest);
    LinesLast(word, gap + rest);
    hide Next, IsTarget, RunOf;
    if word == "" {
      assert s.input == gap + rest;
      GapStep(t, s, gap, rest);
      OneCall(t, s, 0);
      NoCalls(t, Next(t, s).s);
    } else {
      assert s.input == [word[0]] + (word[1..] + (gap + rest));
      LetterStep(t, s, word[0], word[1..] + (gap + rest));
      WordComesOut(t, Next(t, s).s, word[1..], gap, rest);
      OneCall(t, s, |word|);
      assert [word[0]] + (word[1..] + " ") == word + " ";
    }
  }

  lemma NoCalls(t: Target, s: Scrub)
    requires IsTarget(t) && Valid(s) && (s.input == "" || Scans(s))
    ensures RunOf(t, s, 0) == Run(s, "", 0)
  {
  }

  // ---------------------------------------------------------------- the end of the file

  /** A string that the file ends in is closed, and a newline put after it. */
  lemma StringAtEnd(t: Target, s: Scrub)
    requires IsTarget(t) && s.state == 5 && s.input == "" && s.oldState in {0, 1, 2, 3, 9, 10}
    ensures Valid(s) && Ends(s)
    ensures var r := Next(t, s);
      && r.c == Some('"') && Valid(r.s) && Ends(r.s)
      && var q := Next(t, r.s);
         q.c == Some('\n') && q.s.state == 0 && (s.addNewlines == 0 ==> q.s.input == "")
  {
  }

  /** A comment to the end of the line ends with the file, and a newline is put after it. */
  lemma CommentAtEnd(t: Target, s: Scrub, mark: char, inner: string)
    requires IsTarget(t) && s.state in {1, 2, 3, 9, 10} && s.input == [mark] + inner && '\n' !in inner
    requires mark in t.comments && mark != t.separator && (mark == '/' ==> StartsNoComment(t, inner))
    ensures Valid(s) && Ends(s)
    ensures var r := Next(t, s); r.c == Some('\n') && r.s.input == "" && r.s.state == 0
  {
    assert s.input[1..] == inner;
    LineSkipped(inner, "");
    assert inner + "" == inner;
    hide AfterWhite, LineEnd, LineComment;
    assert Flush(t, s, false) == Misc(t, s, mark, inner, false);
    assert !IsSymbol(mark);
  }
}
