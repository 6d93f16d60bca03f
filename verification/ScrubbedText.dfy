/** The text that comes out of the scrubber (cctools/as/app.c), but for blanks outside strings. */
module ScrubbedText {
  import opened Decimal
  import opened Scrubber
  import opened Wrappers

  // ---------------------------------------------------------------- texts without their blanks

  /** Where a reader of the output is: outside strings, in one, or after a backslash in one. */
  datatype Mode = Outside | Inside | Escaped

  function ModeAfter(m: Mode, c: char): Mode {
    match m
    case Outside => if c == '"' then Inside else Outside
    case Inside => if c == '"' then Outside else if c == '\\' then Escaped else Inside
    case Escaped => Inside
  }

  /** The text less the blanks outside strings. */
  function Solid(m: Mode, text: string): string
    decreases |text|
  {
    if text == "" then ""
    else (if m.Outside? && text[0] == ' ' then "" else [text[0]]) + Solid(ModeAfter(m, text[0]), text[1..])
  }

  // ---------------------------------------------------------------- what is still to come

  /** Between tokens: the state of the scrubber, what it knows of the line, and the newlines that it owes. */
  datatype Place = Place(state: int, sub: nat, owed: nat)

  function NewlinesOf(n: nat): string {
    if n == 0 then "" else "\n" + NewlinesOf(n - 1)
  }

  /** The state after blanks that stand before the character c. */
  function AfterBlanks(t: Target, p: Place, c: char): Place {
    if c in t.comments || (p.state == 0 && c in t.lineComments) || c == '/' || IsSeparator(t, c) then p
    else match p.state
      case 0 => p.(state := 1)
      case 2 => if t.i386 && p.sub == 0 then p.(sub := 1) else p.(state := 3, sub := if t.i386 then 0 else p.sub)
      case 9 => p.(state := 10)
      case _ => p
  }

  /** The state at a character without a meaning of its own, and after it. */
  function AtPlain(state: int, c: char): int {
    if IsSymbol(c) then (if state in {3, 10} then 9 else state)
    else if state in {9, 10} then 3
    else state
  }

  function AfterPlain(state: int): int {
    if state in {0, 1} then 2 else state
  }

  /** All that comes of the text from between two tokens on. */
  function Clean(t: Target, p: Place, text: string): string
    decreases |text|, 1
  {
    if text == "" then "" else
      var c, rest := text[0], text[1..];
      if c in {' ', '\t'} then
        var r := AfterWhite(rest);
        if r == "" then "" else Clean(t, AfterBlanks(t, p, r[0]), r)
      else if c == '/' && rest != "" && rest[0] == '*' then
        Clean(t, p.(owed := p.owed + CommentNewlines(rest[1..])), " " + CommentEnd(rest[1..]))
      else if c == '/' && rest != "" && rest[0] == '/' && t.slashes then
        Clean(t, p, LineEnd(rest[1..]))
      else if c == '/' && c !in t.comments && !(p.state == 0 && c in t.lineComments) then
        "/" + Clean(t, p, rest)
      else if c == '"' then
        "\"" + StringRest(t, p, rest)
      else if c == '\'' then
        "(" + DecimalText(if rest == "" then 0 else rest[0] as nat % 256) + ")" + Clean(t, p, if rest == "" then "" else rest[1..])
      else if c == ':' then
        ":" + Clean(t, if p.state == 3 then p else Place(0, 0, p.owed), rest)
      else if c == '\n' then
        NewlinesOf(p.owed + 1) + Clean(t, Place(0, 0, 0), rest)
      else if c == t.separator then
        [c] + Clean(t, Place(0, 0, p.owed), rest)
      else
        PlainRest(t, p, c, rest)
  }

  function PlainRest(t: Target, p: Place, c: char, rest: string): string
    decreases |rest| + 1, 0
  {
    var state := AtPlain(p.state, c);
    if state == 0 && c in t.lineComments then
      var r := AfterWhite(rest);
      if r == "" then "\n"
      else if IsDigit(r[0]) then ".line" + LineNumberRest(t, Place(0, p.sub, p.owed), r)
      else EndLineRest(t, Place(0, 0, p.owed), r)
    else if c in t.comments then EndLineRest(t, Place(0, 0, p.owed), rest)
    else [c] + Clean(t, p.(state := AfterPlain(state)), rest)
  }

  /** A comment to the end of the line, and the newline. */
  function EndLineRest(t: Target, p: Place, rest: string): string
    decreases |rest|, 2
  {
    var r := LineEnd(rest);
    "\n" + if r == "" then "" else Clean(t, Place(0, 0, p.owed), r[1..])
  }

  function LineNumberRest(t: Target, p: Place, text: string): string
    decreases |text|, 2
  {
    if text == "" then ""
    else if IsDigit(text[0]) then [text[0]] + LineNumberRest(t, p, text[1..])
    else
      var r := AfterWhite(text);
      if r != "" && r[0] == '"' then [t.separator] + ".file\"" + StringRest(t, p.(state := 8), r[1..])
      else
        var e := LineEnd(r);
        if e == "" then "" else "\n" + Clean(t, Place(0, p.sub, p.owed), e[1..])
  }

  /** What comes from inside a string on; p is where it stands, or state 8 for one after which the line is dropped. */
  function StringRest(t: Target, p: Place, text: string): string
    decreases |text|, 3
  {
    if text == "" then ""
    else if text[0] == '"' then "\"" + if p.state == 8 then DroppedRest(t, p, text[1..]) else Clean(t, p, text[1..])
    else if text[0] == '\\' then "\\" + EscapeRest(t, p, text[1..])
    else [text[0]] + StringRest(t, p, text[1..])
  }

  function EscapeRest(t: Target, p: Place, text: string): string
    decreases |text|, 3
  {
    if text == "" then ""
    else if text[0] == '\n' then "\\n" + StringRest(t, p.(owed := p.owed + 1), text[1..])
    else [text[0]] + StringRest(t, p, text[1..])
  }

  function DroppedRest(t: Target, p: Place, text: string): string
    decreases |text|, 2
  {
    var r := LineEnd(text);
    if r == "" then "" else "\n" + Clean(t, Place(0, 0, p.owed), r[1..])
  }

  /** What comes from a state of the scrubber on, after what is being put out. */
  function Coming(t: Target, s: Scrub): string {
    var back := Place(s.oldState, s.substate, s.addNewlines);
    if s.state == -1 then Solid(Outside, s.out) + ComingFrom(t, s.oldState, back, s.input) else ComingFrom(t, s.state, back, s.input)
  }

  /** What comes from a state on; back is where the string that is being read stands. */
  function ComingFrom(t: Target, state: int, back: Place, input: string): string {
    match state
    case 4 => LineNumberRest(t, back.(state := 0), input)
    case 5 => StringRest(t, back, input)
    case 6 => EscapeRest(t, back, input)
    case 7 => if input == "" then "" else [input[0]] + StringRest(t, back.(state := 8), input[1..])
    case 8 => DroppedRest(t, back, input)
    case _ => Clean(t, back.(state := state), input)
  }

  // ---------------------------------------------------------------- one call

  function ModeOf(s: Scrub): Mode {
    if s.state == 5 then Inside else if s.state == 6 then Escaped else Outside
  }

  /** What is put out holds no string, and a file name is about to be read from its quote on. */
  predicate IsTidy(s: Scrub) {
    && (s.state == -1 ==> s.out != "" && '"' !in s.out)
    && (s.state == 7 || (s.state == -1 && s.oldState == 7) ==> s.input != "" && s.input[0] == '"')
  }

  /** The call returns the first of what is to come, if it is not a blank, and leaves the rest to come. */
  predicate Comes(t: Target, coming: string, m: Mode, r: Result) {
    && IsTidy(r.s)
    && match r.c
       case None => coming == Coming(t, r.s) && ModeOf(r.s) == m
       case Some(c) => coming == Solid(m, [c]) + Coming(t, r.s) && ModeOf(r.s) == ModeAfter(m, c)
  }

  lemma SolidOne(m: Mode, c: char)
    ensures Solid(m, [c]) == if m.Outside? && c == ' ' then "" else [c]
  {
    assert [c][1..] == "";
  }

  lemma {:induction false} SolidConcat(m: Mode, c: char, rest: string)
    ensures Solid(m, [c] + rest) == Solid(m, [c]) + Solid(ModeAfter(m, c), rest)
  {
    SolidOne(m, c);
    assert ([c] + rest)[1..] == rest;
  }

  lemma {:induction false} SolidPlain(text: string)
    requires ' ' !in text && '"' !in text
    ensures Solid(Outside, text) == text
  {
    if text != "" {
      SolidPlain(text[1..]);
    }
  }

  /** A text without quotes is put out like any other. */
  lemma {:induction false} SolidParts(a: string, b: string)
    requires '"' !in a
    ensures Solid(Outside, a + b) == Solid(Outside, a) + Solid(Outside, b)
  {
    if a == "" {
      assert a + b == b;
    } else {
      assert (a + b)[1..] == a[1..] + b;
      SolidParts(a[1..], b);
    }
  }

  function PlaceOf(s: Scrub): Place {
    Place(s.state, s.substate, s.addNewlines)
  }

  predicate IsBetween(s: Scrub) {
    s.state in {0, 1, 2, 3, 9, 10}
  }

  lemma EndLineComes(t: Target, s: Scrub, rest: string)
    ensures Comes(t, EndLineRest(t, Place(0, 0, s.addNewlines), rest), Outside, EndLine(s, rest))
  {
    hide LineEnd;
    SolidOne(Outside, '\n');
  }

  lemma PutOutComes(t: Target, s: Scrub, out: string, next: int, coming: string)
    requires out != "" && out[0] != ' ' && '"' !in out && (next == 7 ==> s.input != "" && s.input[0] == '"')
    requires coming == Solid(Outside, out) + ComingFrom(t, next, Place(next, s.substate, s.addNewlines), s.input)
    requires |out| > 1
    ensures Comes(t, coming, Outside, StartString(s, out, next, true))
    ensures Comes(t, coming, Outside, StartString(s, out, next, false))
  {
    hide ComingFrom, Solid, ModeAfter;
    FirstOut(out);
  }

  lemma FirstOut(out: string)
    requires |out| > 1 && out[0] != ' ' && '"' !in out
    ensures out[1..] != "" && '"' !in out[1..] && ModeAfter(Outside, out[0]) == Outside
    ensures Solid(Outside, out) == Solid(Outside, [out[0]]) + Solid(Outside, out[1..])
  {
    hide Solid;
    assert out == [out[0]] + out[1..];
    SolidConcat(Outside, out[0], out[1..]);
  }

  lemma LineCommentComes(t: Target, s: Scrub, rest: string)
    requires IsTarget(t) && s.state == 0
    ensures var r := AfterWhite(rest);
      Comes(t, if r == "" then "\n" else if IsDigit(r[0]) then ".line" + LineNumberRest(t, Place(0, s.substate, s.addNewlines), r)
               else EndLineRest(t, Place(0, 0, s.addNewlines), r), Outside, LineComment(s, rest))
  {
    hide AfterWhite, LineEnd, EndLineRest, LineNumberRest, EndLine, Comes;
    var r := AfterWhite(rest);
    if r == "" {
      NothingComes(t, s);
    } else if IsDigit(r[0]) {
      LineOut();
      PutOutComes(t, s.(input := r), ".line ", 4, ".line" + LineNumberRest(t, Place(0, s.substate, s.addNewlines), r));
    } else {
      EndLineComes(t, s, r);
    }
  }

  lemma NothingComes(t: Target, s: Scrub)
    requires s.state == 0
    ensures Comes(t, "\n", Outside, Return(s.(input := ""), '\n', true))
  {
    SolidOne(Outside, '\n');
  }

  lemma LineOut()
    ensures Solid(Outside, ".line ") == ".line"
    ensures Solid(Outside, " .file ") == ".file"
  {
    hide Solid;
    assert ".line " == ".line" + " " && " .file " == " " + ".file" + " ";
    SolidPlain(".line");
    SolidPlain(".file");
    SolidOne(Outside, ' ');
    SolidParts(".line", " ");
    SolidParts(" " + ".file", " ");
    SolidParts(" ", ".file");
  }

  /** A symbol character after the blanks that state 10 remembers. */
  lemma SymbolComes(t: Target, p: Place, c: char, rest: string)
    requires IsTarget(t) && IsSymbol(c) && p.state == 10
    ensures Clean(t, p.(state := 3), [c] + rest) == PlainRest(t, p, c, rest)
  {
    assert ([c] + rest)[1..] == rest;
    hide AfterWhite, EndLineRest, LineNumberRest;
  }

  /** A character that is returned between tokens. */
  lemma OneComes(t: Target, s: Scrub, c: char, dropped: bool)
    requires IsBetween(s) && c != '"' && c != ' '
    ensures Comes(t, [c] + Clean(t, PlaceOf(s), s.input), Outside, Return(s, c, dropped))
  {
    hide Clean;
    SolidOne(Outside, c);
  }

  lemma MiscComes(t: Target, s: Scrub, c: char, rest: string, dropped: bool)
    requires IsTarget(t) && IsBetween(s) && c != '"' && c != ' '
    ensures Comes(t, PlainRest(t, PlaceOf(s), c, rest), Outside, Misc(t, s, c, rest, dropped))
  {
    hide AfterWhite, LineEnd, EndLineRest, LineNumberRest, EndLine, Clean, LineComment, IsTarget;
    SolidOne(Outside, c);
    SolidOne(Outside, ' ');
    var state := AtPlain(s.state, c);
    if IsSymbol(c) && s.state == 10 {
      SymbolComes(t, PlaceOf(s), c, rest);
    } else if state == 0 && c in t.lineComments {
      LineCommentComes(t, s.(state := state, input := rest), rest);
    } else if c in t.comments {
      EndLineComes(t, s.(state := state, input := rest), rest);
    } else {
      OneComes(t, s.(state := AfterPlain(state), input := rest), c, dropped);
    }
  }

  lemma QuotedComes(t: Target, s: Scrub, rest: string, dropped: bool)
    requires IsBetween(s)
    ensures Comes(t, Clean(t, PlaceOf(s), ['\''] + rest), Outside, Flush(t, s.(input := ['\''] + rest), dropped))
  {
    hide Clean, ComingFrom, Comes, DecimalText;
    var n := if rest == "" then 0 else rest[0] as nat % 256;
    var out, left := "(" + DecimalText(n) + ")", if rest == "" then "" else rest[1..];
    assert (['\''] + rest)[1..] == rest;
    QuotedIsPlain(n);
    QuotedClean(t, PlaceOf(s), rest);
    QuotedFlush(t, s, rest, dropped);
    BetweenComes(t, s.(input := left));
    PutOutComes(t, s.(input := left), out, s.state, Clean(t, PlaceOf(s), ['\''] + rest));
    CallsAlike(t, Clean(t, PlaceOf(s), ['\''] + rest), StartString(s.(input := left), out, s.state, dropped), rest != "" && rest[0] == '\n');
  }

  lemma CallsAlike(t: Target, coming: string, r: Result, ate: bool)
    ensures Comes(t, coming, Outside, r) <==> Comes(t, coming, Outside, r.(ate := ate))
  {
  }

  lemma BetweenComes(t: Target, s: Scrub)
    requires IsBetween(s)
    ensures ComingFrom(t, s.state, PlaceOf(s), s.input) == Clean(t, PlaceOf(s), s.input)
  {
  }

  lemma QuotedIsPlain(n: nat)
    ensures var out := "(" + DecimalText(n) + ")"; |out| > 1 && out[0] == '(' && '"' !in out && Solid(Outside, out) == out
  {
    DecimalTextStart(n);
    hide DecimalText;
    SolidPlain("(" + DecimalText(n) + ")");
  }

  lemma QuotedClean(t: Target, p: Place, rest: string)
    ensures Clean(t, p, ['\''] + rest)
      == "(" + DecimalText(if rest == "" then 0 else rest[0] as nat % 256) + ")" + Clean(t, p, if rest == "" then "" else rest[1..])
  {
    hide DecimalText;
    assert (['\''] + rest)[1..] == rest;
  }

  lemma QuotedFlush(t: Target, s: Scrub, rest: string, dropped: bool)
    ensures var n := if rest == "" then 0 else rest[0] as nat % 256;
      Flush(t, s.(input := ['\''] + rest), dropped)
      == StartString(s.(input := if rest == "" then "" else rest[1..]), "(" + DecimalText(n) + ")", s.state, dropped)
         .(ate := rest != "" && rest[0] == '\n')
  {
    hide DecimalText;
    assert (['\''] + rest)[1..] == rest;
  }

  lemma {:induction false} FlushComes(t: Target, s: Scrub, dropped: bool)
    requires IsTarget(t) && IsBetween(s)
    ensures Comes(t, Clean(t, PlaceOf(s), s.input), Outside, Flush(t, s, dropped))
    decreases |s.input|
  {
    hide AfterWhite, LineEnd, CommentEnd, CommentNewlines, DecimalText, Misc, PlainRest, IsTarget, StringRest, Solid;
    if s.input != "" {
      var c, rest := s.input[0], s.input[1..];
      SolidOne(Outside, c);
      SolidOne(Outside, ' ');
      if c in {' ', '\t'} {
        BlanksCome(t, s, dropped);
      } else if c == '/' && rest != "" && rest[0] == '*' {
        FlushComes(t, s.(input := " " + CommentEnd(rest[1..]), addNewlines := s.addNewlines + CommentNewlines(rest[1..])), true);
      } else if c == '/' && rest != "" && rest[0] == '/' && t.slashes {
        FlushComes(t, s.(input := LineEnd(rest[1..])), true);
      } else if c == '\'' {
        assert s.input == ['\''] + rest;
        QuotedComes(t, s, rest, dropped);
      } else if c == '\n' {
        NewlineComes(t, s, dropped);
      } else if c in {':', t.separator} {
        SeparatorIsPlain(t);
        OneComes(t, if c == ':' && s.state == 3 then s.(input := rest) else s.(state := 0, substate := 0, input := rest), c, dropped);
      } else if c == '/' && c !in t.comments && !(s.state == 0 && c in t.lineComments) {
        OneComes(t, s.(input := rest), c, dropped);
      } else if c != '"' {
        MiscComes(t, s, c, rest, dropped);
      }
    }
  }

  lemma SeparatorIsPlain(t: Target)
    requires IsTarget(t)
    ensures t.separator !in {'"', ' ', '/', '\''}
  {
  }

  lemma {:induction false} BlanksCome(t: Target, s: Scrub, dropped: bool)
    requires IsTarget(t) && IsBetween(s) && s.input != "" && s.input[0] in {' ', '\t'}
    ensures Comes(t, Clean(t, PlaceOf(s), s.input), Outside, Flush(t, s, dropped))
    decreases |s.input|, 0
  {
    hide AfterWhite, LineEnd, CommentEnd, CommentNewlines, DecimalText, Misc, PlainRest, IsTarget, StringRest, Solid;
    var r := AfterWhite(s.input[1..]);
    SolidOne(Outside, ' ');
    if r != "" {
      if DropsWhite(t, s, r) {
        FlushComes(t, s.(input := r), true);
      } else if s.state !in {0, 2} {
        FlushComes(t, s.(state := if s.state == 9 then 10 else s.state, input := r), true);
      }
    }
  }

  lemma NewlineClean(t: Target, p: Place, text: string)
    requires IsTarget(t) && text != "" && text[0] == '\n'
    ensures Clean(t, p, text) == NewlinesOf(p.owed + 1) + Clean(t, Place(0, 0, 0), text[1..])
  {
  }

  lemma NewlineComes(t: Target, s: Scrub, dropped: bool)
    requires IsTarget(t) && IsBetween(s) && s.input != "" && s.input[0] == '\n'
    ensures Comes(t, Clean(t, PlaceOf(s), s.input), Outside, Flush(t, s, dropped))
  {
    hide Clean, Solid;
    SolidOne(Outside, '\n');
    NewlineClean(t, PlaceOf(s), s.input);
    if s.addNewlines > 0 {
      NewlineClean(t, Place(0, 0, s.addNewlines - 1), s.input);
    }
  }

  lemma StringComes(t: Target, s: Scrub)
    requires s.state in {5, 6} && s.input != "" && s.oldState in {0, 1, 2, 3, 8, 9, 10}
    ensures Comes(t, Coming(t, s), ModeOf(s), if s.state == 5 then InString(s) else InEscape(s))
  {
    hide Clean, DroppedRest;
    var c, rest := s.input[0], s.input[1..];
    SolidOne(ModeOf(s), c);
    SolidOne(ModeOf(s), '\\');
    if s.state == 6 && c == '\n' {
      assert ("n" + rest)[1..] == rest;
    }
  }

  lemma LineNumberComes(t: Target, s: Scrub)
    requires IsTarget(t) && s.state == 4 && s.input != ""
    ensures Comes(t, Coming(t, s), Outside, LineNumber(t, s))
  {
    hide Clean, AfterWhite, LineEnd, StringRest, IsTarget, Comes;
    var p := Place(0, s.substate, s.addNewlines);
    if IsDigit(s.input[0]) {
      DigitComes(t, s);
    } else {
      var r := AfterWhite(s.input);
      if r != "" && r[0] == '"' {
        SeparatorIsPlain(t);
        FileOut(t);
        PutOutComes(t, s.(input := r), [t.separator] + " .file ", 7, Coming(t, s));
      } else {
        LineDropped(t, s, r);
      }
    }
  }

  lemma DigitComes(t: Target, s: Scrub)
    requires s.state == 4 && s.input != "" && IsDigit(s.input[0])
    ensures Comes(t, Coming(t, s), Outside, Return(s.(input := s.input[1..]), s.input[0], false))
  {
    SolidOne(Outside, s.input[0]);
  }

  lemma LineDropped(t: Target, s: Scrub, r: string)
    requires s.state == 4
    ensures var e := LineEnd(r);
      && Comes(t, "", Outside, EndOfFile(s.(state := 0, input := ""), true))
      && (e != "" ==> Comes(t, "\n" + Clean(t, Place(0, s.substate, s.addNewlines), e[1..]), Outside,
                           Return(s.(state := 0, input := e[1..]), '\n', true)))
  {
    SolidOne(Outside, '\n');
  }

  lemma FileOut(t: Target)
    requires t.separator !in {'"', ' '}
    ensures Solid(Outside, [t.separator] + " .file ") == [t.separator] + ".file" && '"' !in [t.separator] + " .file "
  {
    LineOut();
    hide Solid;
    SolidOne(Outside, t.separator);
    SolidConcat(Outside, t.separator, " .file ");
  }

  lemma OutComes(t: Target, s: Scrub)
    requires s.state == -1 && s.out != "" && '"' !in s.out && s.oldState in {0, 1, 2, 3, 4, 7, 9, 10} && IsTidy(s)
    ensures Comes(t, Coming(t, s), Outside,
      if |s.out| > 1 then Return(s.(out := s.out[1..]), s.out[0], false)
      else Return(s.(state := s.oldState, oldState := 3, out := ""), s.out[0], false))
  {
    hide Clean, LineNumberRest, StringRest, Solid;
    var c := s.out[0];
    assert s.out == [c] + s.out[1..];
    SolidConcat(Outside, c, s.out[1..]);
    assert |s.out| == 1 ==> s.out == [c];
  }

  lemma NameComes(t: Target, s: Scrub)
    requires s.state in {7, 8} && IsTidy(s) && Ends(s)
    ensures s.state == 7 ==> s.input != ""
    ensures Comes(t, Coming(t, s), Outside,
      if s.state == 7 then Return(s.(state := 5, oldState := 8, input := s.input[1..]), s.input[0], false)
      else Return(s.(state := 0, substate := 0, input := LineEnd(s.input)[1..]), '\n', true))
  {
    hide Clean, StringRest, LineEnd;
    SolidOne(Outside, '"');
    SolidOne(Outside, '\n');
  }

  /** Each call returns the first character of what is to come. */
  lemma NextComes(t: Target, s: Scrub)
    requires IsTarget(t) && Valid(s) && Ends(s) && Scans(s) && IsTidy(s)
    ensures Comes(t, Coming(t, s), ModeOf(s), Next(t, s))
  {
    hide Clean, LineNumberRest, StringRest, EscapeRest, DroppedRest, Solid, Flush, AfterWhite, LineEnd, LineNumber, InString, InEscape;
    hide IsTarget, Comes;
    match s.state
    case -1 => OutComes(t, s);
    case 4 => LineNumberComes(t, s);
    case 5 => StringComes(t, s);
    case 6 => StringComes(t, s);
    case 7 => NameComes(t, s);
    case 8 => NameComes(t, s);
    case _ =>
      FlushComes(t, s, false);
      assert Coming(t, s) == Clean(t, PlaceOf(s), s.input);
  }

  // ---------------------------------------------------------------- runs

  /** The main result about runs: what has been returned, less blanks outside strings, and what is still to come make up all that
      was to come. */
  lemma {:induction false} RunComesOut(t: Target, s: Scrub, n: nat)
    requires IsTarget(t) && Valid(s) && (s.input == "" || Scans(s)) && IsTidy(s)
    ensures var run := RunOf(t, s, n);
      IsTidy(run.s) && Solid(ModeOf(s), run.text) + Coming(t, run.s) == Coming(t, s)
    decreases n
  {
    hide Solid, Next, Coming, IsTarget, Valid, Scans;
    if n > 0 && s.input != "" {
      ScansToTheEnd(s);
      NextValid(t, s);
      NextScans(t, s);
      NextComes(t, s);
      var r := Next(t, s);
      RunComesOut(t, r.s, n - 1);
      var run := RunOf(t, r.s, n - 1);
      if r.c.Some? {
        SolidConcat(ModeOf(s), r.c.value, run.text);
      } else {
        assert "" + run.text == run.text;
      }
    } else {
      SolidNothing(ModeOf(s));
    }
  }

  lemma SolidNothing(m: Mode)
    ensures Solid(m, "") == ""
  {
  }

  /** What is being put out at the end, when a quote has taken the last newline. */
  function LeftOver(s: Scrub): string {
    if s.state == -1 then Solid(Outside, s.out) else ""
  }

  lemma RunFrom(t: Target, s: Scrub, n: nat, clean: string)
    requires IsTarget(t) && Valid(s) && (s.input == "" || Scans(s)) && IsTidy(s) && ModeOf(s) == Outside && Coming(t, s) == clean
    ensures var run := RunOf(t, s, n);
      && Solid(Outside, run.text) + Coming(t, run.s) == clean
      && (run.s.input == "" ==> Coming(t, run.s) == LeftOver(run.s))
  {
    hide *;
    RunComesOut(t, s, n);
    NothingMore(t, RunOf(t, s, n).s);
  }

  /** A file of complete lines from its start. */
  lemma RunOfFile(t: Target, file: string, n: nat)
    requires IsTarget(t) && Lines(file)
    ensures var s := Scrub(0, 0, 0, "", 0, file);
      && Valid(s) && (s.input == "" || Scans(s))
      && var run := RunOf(t, s, n);
         && Solid(Outside, run.text) + Coming(t, run.s) == Clean(t, Place(0, 0, 0), file)
         && (run.s.input == "" ==> Coming(t, run.s) == LeftOver(run.s))
  {
    hide *;
    AtFirst(file);
    AtStart(t, file);
    RunFrom(t, Scrub(0, 0, 0, "", 0, file), n, Clean(t, Place(0, 0, 0), file));
  }

  lemma AtStart(t: Target, file: string)
    ensures var s := Scrub(0, 0, 0, "", 0, file);
      IsTidy(s) && ModeOf(s) == Outside && Coming(t, s) == Clean(t, Place(0, 0, 0), file)
  {
    hide Clean;
  }

  lemma NothingMore(t: Target, s: Scrub)
    ensures s.input == "" ==> Coming(t, s) == LeftOver(s)
  {
    hide Solid;
  }

  // ---------------------------------------------------------------- every file is read to its end

  function Weight(text: string): nat {
    if text == "" then 0 else (if text[0] == '\n' then 22 else 20) + Weight(text[1..])
  }

  function Burden(state: int): nat {
    if state == 4 then 8 else if state == 10 then 1 else 0
  }

  /** How many calls a state can last for. */
  function Load(s: Scrub): nat {
    Weight(s.input) + s.addNewlines + if s.state == -1 then |s.out| + Burden(s.oldState) else Burden(s.state)
  }

  lemma {:induction false} WhiteWeighs(text: string)
    ensures Weight(AfterWhite(text)) <= Weight(text)
  {
    if text != "" && IsWhite(text[0]) {
      WhiteWeighs(text[1..]);
    }
  }

  lemma {:induction false} LineWeighs(text: string)
    ensures Weight(LineEnd(text)) <= Weight(text)
    ensures LineEnd(text) != "" ==> Weight(LineEnd(text)[1..]) < Weight(text)
  {
    if text != "" && text[0] != '\n' {
      LineWeighs(text[1..]);
    }
  }

  lemma {:induction false} CommentWeighs(text: string)
    ensures Weight(CommentEnd(text)) + CommentNewlines(text) <= Weight(text)
  {
    if text != "" {
      if text[0] == '*' && |text| > 1 && text[1] == '/' {
        assert text[1..][1..] == text[2..];
      } else {
        CommentWeighs(text[1..]);
      }
    }
  }

  lemma OneWeighs(c: char, rest: string)
    ensures Weight([c] + rest) == Weight(rest) + if c == '\n' then 22 else 20
    ensures Weight("") == 0
  {
    assert ([c] + rest)[1..] == rest;
  }

  lemma QuotedIsShort(n: nat)
    requires n < 256
    ensures |"(" + DecimalText(n) + ")"| <= 5
  {
    assert Ten(3) == 1000;
    DecimalTextLength(n, 3);
  }

  lemma EndLineShrinks(s: Scrub, rest: string)
    ensures Load(EndLine(s, rest).s) <= Weight(rest) + s.addNewlines
    ensures var r := LineComment(s.(state := 0), rest).s; Load(r) <= Weight(rest) + s.addNewlines + 13
  {
    WhiteWeighs(rest);
    LineWeighs(rest);
    LineWeighs(AfterWhite(rest));
    OneWeighs(' ', "");
    hide AfterWhite, LineEnd, Weight;
  }

  lemma MiscShrinks(t: Target, s: Scrub, c: char, rest: string, dropped: bool)
    requires IsBetween(s) && s.input == [c] + rest && c != '\n'
    ensures Load(Misc(t, s, c, rest, dropped).s) < Load(s)
  {
    hide Weight, LineComment, EndLine;
    OneWeighs(c, rest);
    var state := AtPlain(s.state, c);
    EndLineShrinks(s.(state := state, input := rest), rest);
  }

  lemma {:induction false} FlushShrinks(t: Target, s: Scrub, dropped: bool)
    requires IsTarget(t) && IsBetween(s)
    ensures if s.input == "" then Flush(t, s, dropped).s == s else Load(Flush(t, s, dropped).s) < Load(s)
    decreases |s.input|
  {
    hide AfterWhite, LineEnd, CommentEnd, CommentNewlines, DecimalText, Misc, IsTarget, Weight;
    if s.input != "" {
      var c, rest := s.input[0], s.input[1..];
      assert s.input == [c] + rest;
      OneWeighs(c, rest);
      if c in {' ', '\t'} {
        WhiteWeighs(rest);
        var r := AfterWhite(rest);
        if r != "" && DropsWhite(t, s, r) {
          FlushShrinks(t, s.(input := r), true);
        } else if r != "" && s.state !in {0, 2} {
          FlushShrinks(t, s.(state := if s.state == 9 then 10 else s.state, input := r), true);
        }
      } else if c == '/' {
        SlashShrinks(t, s, rest, dropped);
      } else if c == '\'' {
        QuotedIsShort(if rest == "" then 0 else rest[0] as nat % 256);
        if rest != "" {
          assert rest == [rest[0]] + rest[1..];
          OneWeighs(rest[0], rest[1..]);
        }
      } else if c !in {'\n', '"', ':', t.separator} {
        MiscShrinks(t, s, c, rest, dropped);
      }
    }
  }

  lemma {:induction false} SlashShrinks(t: Target, s: Scrub, rest: string, dropped: bool)
    requires IsTarget(t) && IsBetween(s) && s.input == ['/'] + rest
    ensures Load(Flush(t, s, dropped).s) < Load(s)
    decreases |s.input|, 0
  {
    hide AfterWhite, LineEnd, CommentEnd, CommentNewlines, DecimalText, Misc, IsTarget, Weight;
    OneWeighs('/', rest);
    assert s.input[1..] == rest;
    if rest != "" && (rest[0] == '*' || (rest[0] == '/' && t.slashes)) {
      var inner := rest[1..];
      assert rest == [rest[0]] + inner;
      OneWeighs(rest[0], inner);
      if rest[0] == '*' {
        CommentWeighs(inner);
        OneWeighs(' ', CommentEnd(inner));
        FlushShrinks(t, s.(input := " " + CommentEnd(inner), addNewlines := s.addNewlines + CommentNewlines(inner)), true);
      } else {
        LineWeighs(inner);
        FlushShrinks(t, s.(input := LineEnd(inner)), true);
      }
    } else {
      MiscShrinks(t, s, '/', rest, dropped);
    }
  }

  lemma NextShrinks(t: Target, s: Scrub)
    requires IsTarget(t) && Valid(s) && Ends(s) && Scans(s)
    ensures Load(Next(t, s).s) < Load(s)
  {
    hide Flush, LineNumber, InString, InEscape, LineEnd, IsTarget, Weight;
    match s.state
    case 4 => LineNumberShrinks(t, s);
    case 8 => LineWeighs(s.input);
    case -1 =>
    case 5 => StringShrinks(s);
    case 6 => StringShrinks(s);
    case 7 => StringShrinks(s);
    case _ => FlushShrinks(t, s, false);
  }

  lemma StringShrinks(s: Scrub)
    requires s.state in {5, 6, 7} && s.input != "" && (s.state != 7 ==> s.oldState in {0, 1, 2, 3, 8, 9, 10})
    ensures s.state == 5 ==> Load(InString(s).s) < Load(s)
    ensures s.state == 6 ==> Load(InEscape(s).s) < Load(s)
    ensures s.state == 7 ==> Load(s.(state := 5, oldState := 8, input := s.input[1..])) < Load(s)
  {
    hide Weight;
    var c, rest := s.input[0], s.input[1..];
    assert s.input == [c] + rest;
    OneWeighs(c, rest);
    OneWeighs('n', rest);
  }

  lemma LineNumberShrinks(t: Target, s: Scrub)
    requires s.state == 4 && s.input != ""
    ensures Load(LineNumber(t, s).s) < Load(s)
  {
    hide Weight, AfterWhite, LineEnd;
    var c, rest := s.input[0], s.input[1..];
    assert s.input == [c] + rest;
    OneWeighs(c, rest);
    OneWeighs(c, "");
    WhiteWeighs(s.input);
    LineWeighs(AfterWhite(s.input));
  }

  /** So many calls read any text to its end. */
  lemma {:induction false} RunEnds(t: Target, s: Scrub, n: nat)
    requires IsTarget(t) && Valid(s) && (s.input == "" || Scans(s)) && n >= Load(s)
    ensures RunOf(t, s, n).s.input == ""
    decreases n
  {
    hide Next, Load, IsTarget, Valid, Scans;
    if s.input != "" {
      ScansToTheEnd(s);
      NextValid(t, s);
      NextScans(t, s);
      NextShrinks(t, s);
      RunEnds(t, Next(t, s).s, n - 1);
    }
  }
}
