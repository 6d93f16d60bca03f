/** The source scrubber (do_scrub_next_char of cctools/as/app.c): comments go, blanks shrink, line numbers stay. */
module Scrubber {
  import opened Decimal
  import opened Wrappers

  /** What differs by target: the character that separates statements, those that start comments anywhere and at
      the start of a line, whether // starts a comment, and whether blanks after the first two tokens are kept. */
  datatype Target = Target(separator: char, comments: set<char>, lineComments: set<char>, slashes: bool, i386: bool)

  /** The static variables: states 0 to 10 and -1, and the text still to be read, pushed-back characters first. */
  datatype Scrub = Scrub(state: int, substate: nat, oldState: int, out: string, addNewlines: nat, input: string)

  /** One call: the new state, the character returned (none at the end), whether blanks or comments were dropped
      before it, and whether a newline was taken for a character constant. */
  datatype Result = Result(s: Scrub, c: Option<char>, dropped: bool, ate: bool)

  // ---------------------------------------------------------------- characters

  predicate IsWhite(c: char) {
    c in {' ', '\t', '\r'}
  }

  predicate IsSymbol(c: char) {
    IsDigit(c) || 'a' <= c <= 'z' || 'A' <= c <= 'Z' || c in {'$', '.', '_'}
  }

  predicate IsSeparator(t: Target, c: char) {
    c == '\n' || c == ':' || c == t.separator
  }

  /** The targets use punctuation to separate and to comment. */
  predicate IsTarget(t: Target) {
    && t.separator in {';', '@'}
    && forall c :: c in t.comments + t.lineComments ==> !IsWhite(c) && !IsSymbol(c) && c !in {'\n', ':', '"', '\''}
  }

  function Newlines(s: string): nat {
    if s == "" then 0 else (if s[0] == '\n' then 1 else 0) + Newlines(s[1..])
  }

  function AfterWhite(s: string): (r: string)
    ensures |r| <= |s| && (r != "" ==> !IsWhite(r[0]))
  {
    if s == "" || !IsWhite(s[0]) then s else AfterWhite(s[1..])
  }

  /** From the next newline on. */
  function LineEnd(s: string): (r: string)
    ensures |r| <= |s| && (r != "" ==> r[0] == '\n')
  {
    if s == "" || s[0] == '\n' then s else LineEnd(s[1..])
  }

  /** After the end of a comment, or of the text. */
  function CommentEnd(s: string): (r: string)
    ensures |r| <= |s| && (s != "" ==> |r| < |s|)
  {
    if s == "" then ""
    else if s[0] == '*' && |s| > 1 && s[1] == '/' then s[2..]
    else CommentEnd(s[1..])
  }

  function CommentNewlines(s: string): nat {
    if s == "" then 0
    else if s[0] == '*' && |s| > 1 && s[1] == '/' then 0
    else (if s[0] == '\n' then 1 else 0) + CommentNewlines(s[1..])
  }

  // ---------------------------------------------------------------- one call

  function Return(s: Scrub, c: char, dropped: bool): Result {
    Result(s, Some(c), dropped, false)
  }

  function EndOfFile(s: Scrub, dropped: bool): Result {
    Result(s, None, dropped, false)
  }

  /** Starts to put out a string whose first character is returned at once. */
  function StartString(s: Scrub, out: string, next: int, dropped: bool): Result
    requires out != ""
  {
    Return(s.(state := -1, oldState := next, out := out[1..]), out[0], dropped)
  }

  /** A comment up to the newline, which is returned; one is inserted at the end of the file. */
  function EndLine(s: Scrub, rest: string): Result {
    var r := LineEnd(rest);
    Return(s.(state := 0, substate := 0, input := if r == "" then "" else r[1..]), '\n', true)
  }

  /** A comment at the start of a line, perhaps a line marker of the C preprocessor. */
  function LineComment(s: Scrub, rest: string): Result {
    var r := AfterWhite(rest);
    if r == "" then Return(s.(input := ""), '\n', true)
    else if IsDigit(r[0]) then StartString(s.(input := r), ".line ", 4, true)
    else EndLine(s, r)
  }

  /** deal_misc: a character with no meaning of its own. */
  function Misc(t: Target, s: Scrub, c: char, rest: string, dropped: bool): Result {
    if IsSymbol(c) && s.state == 10 then Return(s.(state := 3, input := [c] + rest), ' ', dropped)
    else
      var state :=
        if IsSymbol(c) then (if s.state == 3 then 9 else s.state)
        else if s.state in {9, 10} then 3
        else s.state;
      var s' := s.(state := state, input := rest);
      if state == 0 && c in t.lineComments then LineComment(s', rest)
      else if c in t.comments then EndLine(s', rest)
      else Return(s'.(state := if state in {0, 1} then 2 else state), c, dropped)
  }

  /** The case of blanks once they have been read: one is kept, or they are dropped. */
  predicate DropsWhite(t: Target, s: Scrub, r: string)
    requires r != ""
  {
    r[0] in t.comments || (s.state == 0 && r[0] in t.lineComments) || r[0] == '/' || IsSeparator(t, r[0])
  }

  /** flushchar: the states between tokens. */
  function Flush(t: Target, s: Scrub, dropped: bool): Result
    decreases |s.input|
  {
    if s.input == "" then EndOfFile(s, dropped) else
      var c, rest := s.input[0], s.input[1..];
      if c in {' ', '\t'} then
        var r := AfterWhite(rest);
        if r == "" then EndOfFile(s.(input := ""), true)
        else if DropsWhite(t, s, r) then Flush(t, s.(input := r), true)
        else if s.state == 2 && t.i386 && s.substate == 0 then Return(s.(substate := 1, input := r), ' ', true)
        else if s.state == 2 then Return(s.(substate := if t.i386 then 0 else s.substate, state := 3, input := r), ' ', true)
        else if s.state == 0 then Return(s.(state := 1, input := r), ' ', true)
        else Flush(t, s.(state := if s.state == 9 then 10 else s.state, input := r), true)
      else if c == '/' then
        if rest != "" && rest[0] == '*' then
          Flush(t, s.(input := " " + CommentEnd(rest[1..]), addNewlines := s.addNewlines + CommentNewlines(rest[1..])), true)
        else if rest != "" && rest[0] == '/' && t.slashes then
          Flush(t, s.(input := LineEnd(rest[1..])), true)
        else if '/' in t.comments || (s.state == 0 && '/' in t.lineComments) then
          Misc(t, s, '/', rest, dropped)
        else
          Return(s.(input := rest), '/', dropped)
      else if c == '"' then
        Return(s.(oldState := s.state, state := 5, input := rest), '"', dropped)
      else if c == '\'' then
        var n := if rest == "" then 0 else rest[0] as nat % 256;
        StartString(s.(input := if rest == "" then "" else rest[1..]), "(" + DecimalText(n) + ")", s.state, dropped)
          .(ate := rest != "" && rest[0] == '\n')
      else if c == ':' then
        Return(if s.state == 3 then s.(input := rest) else s.(state := 0, substate := 0, input := rest), ':', dropped)
      else if c == '\n' then
        if s.addNewlines > 0 then Return(s.(state := 0, substate := 0, addNewlines := s.addNewlines - 1), '\n', dropped)
        else Return(s.(state := 0, substate := 0, input := rest), '\n', dropped)
      else if c == t.separator then
        Return(s.(state := 0, substate := 0, input := rest), c, dropped)
      else
        Misc(t, s, c, rest, dropped)
  }

  /** After .line: the digits, and then a file name or nothing. */
  function LineNumber(t: Target, s: Scrub): Result {
    if s.input == "" then EndOfFile(s, false)
    else if IsDigit(s.input[0]) then Return(s.(input := s.input[1..]), s.input[0], false)
    else
      var r := AfterWhite(s.input);
      if r != "" && r[0] == '"' then StartString(s.(input := r), [t.separator] + " .file ", 7, true)
      else
        var e := LineEnd(r);
        if e == "" then EndOfFile(s.(state := 0, input := ""), true)
        else Return(s.(state := 0, input := e[1..]), '\n', true)
  }

  /** Inside a string. At the end of the file it is closed and a newline is put after it. */
  function InString(s: Scrub): Result {
    if s.input == "" then Return(s.(state := s.oldState, input := "\n"), '"', false)
    else
      var c, s' := s.input[0], s.(input := s.input[1..]);
      Return(s'.(state := if c == '"' then s.oldState else if c == '\\' then 6 else 5), c, false)
  }

  /** After a backslash in a string. A newline becomes a backslash and an n. */
  function InEscape(s: Scrub): Result {
    var s' := s.(state := 5);
    if s.input == "" then Return(s', '"', false)
    else if s.input[0] == '\n' then
      Return(s'.(input := "n" + s.input[1..], addNewlines := s.addNewlines + 1), '\\', false)
    else Return(s'.(input := s.input[1..]), s.input[0], false)
  }

  /** The states that the code can be in. A line marker must have an end. */
  predicate Valid(s: Scrub) {
    && (s.state in {-1, 0, 1, 2, 3, 4, 5, 6, 7, 8, 9, 10})
    && (s.state == -1 ==> PutOut(s.out) && s.oldState in {0, 1, 2, 3, 4, 7, 9, 10})
    && (s.state in {5, 6} ==> s.oldState in {0, 1, 2, 3, 8, 9, 10})
  }

  /** The strings that are put out hold no newline and end with a blank or a parenthesis. */
  predicate PutOut(s: string) {
    s != "" && (forall i :: 0 <= i < |s| ==> s[i] != '\n') && !IsSymbol(s[|s| - 1])
  }

  predicate Ends(s: Scrub) {
    s.state == 8 ==> LineEnd(s.input) != ""
  }

  /** do_scrub_next_char. */
  function Next(t: Target, s: Scrub): (r: Result)
    requires Valid(s) && Ends(s)
  {
    match s.state
    case -1 =>
      if |s.out| > 1 then Return(s.(out := s.out[1..]), s.out[0], false)
      else Return(s.(state := s.oldState, oldState := 3, out := ""), s.out[0], false)
    case 4 => LineNumber(t, s)
    case 5 => InString(s)
    case 6 => InEscape(s)
    case 7 =>
      var s' := s.(state := 5, oldState := 8);
      if s.input == "" then EndOfFile(s', false) else Return(s'.(input := s.input[1..]), s.input[0], false)
    case 8 => Return(s.(state := 0, substate := 0, input := LineEnd(s.input)[1..]), '\n', true)
    case _ => Flush(t, s, false)
  }

  // ---------------------------------------------------------------- newlines are conserved

  lemma {:induction false} NewlinesConcat(a: string, b: string)
    ensures Newlines(a + b) == Newlines(a) + Newlines(b)
  {
    if a == "" {
      assert a + b == b;
    } else {
      assert (a + b)[1..] == a[1..] + b;
      NewlinesConcat(a[1..], b);
    }
  }

  lemma {:induction false} WhiteNewlines(s: string)
    ensures Newlines(AfterWhite(s)) == Newlines(s)
  {
    if s != "" && IsWhite(s[0]) {
      WhiteNewlines(s[1..]);
    }
  }

  lemma {:induction false} LineNewlines(s: string)
    ensures Newlines(LineEnd(s)) == Newlines(s)
  {
    if s != "" && s[0] != '\n' {
      LineNewlines(s[1..]);
    }
  }

  lemma {:induction false} CommentConserves(s: string)
    ensures Newlines(CommentEnd(s)) + CommentNewlines(s) == Newlines(s)
  {
    if s != "" {
      if s[0] == '*' && |s| > 1 && s[1] == '/' {
        assert s[1..][1..] == s[2..];
      } else {
        CommentConserves(s[1..]);
      }
    }
  }

  /** The text is not empty and its last line is complete. */
  predicate EndsLine(s: string) {
    s != "" && s[|s| - 1] == '\n'
  }

  lemma {:induction false} WhiteEndsLine(s: string)
    requires EndsLine(s)
    ensures EndsLine(AfterWhite(s))
  {
    if IsWhite(s[0]) {
      WhiteEndsLine(s[1..]);
    }
  }

  lemma {:induction false} LineEndsLine(s: string)
    requires EndsLine(s)
    ensures EndsLine(LineEnd(s))
  {
    if s[0] != '\n' {
      LineEndsLine(s[1..]);
    }
  }

  lemma {:induction false} CommentEndsLine(s: string)
    requires EndsLine(s)
    ensures CommentEnd(s) == "" || EndsLine(CommentEnd(s))
  {
    if s[0] == '*' && |s| > 1 && s[1] == '/' {
    } else if |s| > 1 {
      CommentEndsLine(s[1..]);
    }
  }

  /** Newlines still to be read or to be made up for. */
  function Pending(s: Scrub): nat {
    Newlines(s.input) + s.addNewlines
  }

  function Returned(c: Option<char>): nat {
    if c == Some('\n') then 1 else 0
  }

  /** One call loses a newline exactly when it takes it for a character constant. */
  predicate Conserves(s: Scrub, r: Result) {
    Pending(r.s) + Returned(r.c) + (if r.ate then 1 else 0) == Pending(s)
  }

  lemma EndLineConserves(s: Scrub, rest: string)
    requires EndsLine(rest)
    ensures Conserves(s.(input := rest), EndLine(s, rest))
  {
    LineNewlines(rest);
    LineEndsLine(rest);
  }

  lemma LineCommentConserves(s: Scrub, rest: string)
    requires EndsLine(rest)
    ensures Conserves(s.(input := rest), LineComment(s, rest))
  {
    WhiteNewlines(rest);
    WhiteEndsLine(rest);
    EndLineConserves(s, AfterWhite(rest));
  }

  lemma MiscConserves(t: Target, s: Scrub, c: char, rest: string, dropped: bool)
    requires IsTarget(t) && c != '\n' && (EndsLine(rest) || (rest == "" && c !in t.lineComments && c !in t.comments))
    ensures Conserves(s.(input := [c] + rest), Misc(t, s, c, rest, dropped))
  {
    NewlinesConcat([c], rest);
    assert Newlines([c]) == 0;
    hide Newlines, LineComment, EndLine;
    var state :=
      if IsSymbol(c) then (if s.state == 3 then 9 else s.state)
      else if s.state in {9, 10} then 3
      else s.state;
    var s' := s.(state := state, input := rest);
    if rest != "" {
      EndLineConserves(s', rest);
      LineCommentConserves(s', rest);
    }
  }

  /** A text that is worth scanning: its last line is complete, or nothing is left but one blank. */
  predicate Whole(input: string) {
    input == "" || input == " " || EndsLine(input)
  }

  lemma {:induction false} FlushConserves(t: Target, s: Scrub, dropped: bool)
    requires IsTarget(t) && Whole(s.input)
    ensures Conserves(s, Flush(t, s, dropped))
    decreases |s.input|
  {
    NoNewlines();
    hide Newlines, CommentEnd, CommentNewlines, LineEnd, Misc, AfterWhite, DecimalText;
    if s.input != "" {
      var c, rest := s.input[0], s.input[1..];
      assert s.input == [c] + rest;
      OneMore(c, rest);
      if c in {' ', '\t'} {
        var r := AfterWhite(rest);
        WhiteNewlines(rest);
        if r != "" {
          WhiteEndsLine(rest);
          if DropsWhite(t, s, r) {
            FlushConserves(t, s.(input := r), true);
          } else if s.state !in {0, 2} {
            FlushConserves(t, s.(state := if s.state == 9 then 10 else s.state, input := r), true);
          }
        }
      } else if c == '/' {
        SlashConserves(t, s, dropped);
      } else if c == '\'' {
        assert rest == [rest[0]] + rest[1..];
        OneMore(rest[0], rest[1..]);
      } else if c !in {'\n', '"', ':', t.separator} {
        MiscConserves(t, s, c, rest, dropped);
      }
    }
  }

  lemma NoNewlines()
    ensures Newlines("") == 0
  {
  }

  /** A comment between two marks, whether it ends or not. */
  lemma CommentTextConserves(rest: string, input: string)
    requires input == ['/'] + rest && rest != "" && rest[0] == '*' && EndsLine(rest)
    ensures Newlines(" " + CommentEnd(rest[1..])) + CommentNewlines(rest[1..]) == Newlines(input)
    ensures Whole(" " + CommentEnd(rest[1..])) && |" " + CommentEnd(rest[1..])| < |input|
  {
    var inner := rest[1..];
    assert rest == ['*'] + inner;
    assert Newlines("/") == 0 && Newlines(" ") == 0 && Newlines("*") == 0;
    CommentConserves(inner);
    CommentEndsLine(inner);
    hide Newlines, CommentEnd, CommentNewlines;
    NewlinesConcat(['/'], rest);
    NewlinesConcat(['*'], inner);
    NewlinesConcat(" ", CommentEnd(inner));
  }

  lemma LineTextConserves(rest: string, input: string)
    requires input == ['/'] + rest && rest != "" && rest[0] == '/' && EndsLine(rest)
    ensures Newlines(LineEnd(rest[1..])) == Newlines(input)
    ensures EndsLine(LineEnd(rest[1..])) && |LineEnd(rest[1..])| < |input|
  {
    var inner := rest[1..];
    assert rest == ['/'] + inner;
    assert Newlines("/") == 0;
    LineNewlines(inner);
    LineEndsLine(inner);
    hide Newlines, LineEnd;
    NewlinesConcat(['/'], rest);
    NewlinesConcat(['/'], inner);
  }

  lemma {:induction false} SlashConserves(t: Target, s: Scrub, dropped: bool)
    requires IsTarget(t) && EndsLine(s.input) && s.input[0] == '/'
    ensures Conserves(s, Flush(t, s, dropped))
    decreases |s.input|, 0
  {
    hide Newlines, CommentEnd, CommentNewlines, LineEnd, Misc, AfterWhite;
    var rest := s.input[1..];
    assert s.input == ['/'] + rest;
    if rest[0] == '*' {
      CommentTextConserves(rest, s.input);
      FlushConserves(t, s.(input := " " + CommentEnd(rest[1..]), addNewlines := s.addNewlines + CommentNewlines(rest[1..])), true);
    } else if rest[0] == '/' && t.slashes {
      LineTextConserves(rest, s.input);
      FlushConserves(t, s.(input := LineEnd(rest[1..])), true);
    } else {
      MiscConserves(t, s, '/', rest, dropped);
      OneMore('/', rest);
    }
  }

  lemma OneMore(c: char, rest: string)
    ensures Newlines([c] + rest) == (if c == '\n' then 1 else 0) + Newlines(rest)
  {
    assert ([c] + rest)[1..] == rest;
  }

  lemma LineNumberConserves(t: Target, s: Scrub)
    requires IsTarget(t) && EndsLine(s.input)
    ensures Conserves(s, LineNumber(t, s))
  {
    assert s.input == [s.input[0]] + s.input[1..];
    OneMore(s.input[0], s.input[1..]);
    hide Newlines, AfterWhite, LineEnd;
    WhiteNewlines(s.input);
    WhiteEndsLine(s.input);
    EndsAtNewline(AfterWhite(s.input));
  }

  lemma StringConserves(s: Scrub)
    requires EndsLine(s.input)
    ensures Conserves(s, InString(s)) && Conserves(s, InEscape(s))
  {
    var rest := s.input[1..];
    assert s.input == [s.input[0]] + rest;
    OneMore(s.input[0], rest);
    OneMore('n', rest);
    hide Newlines;
  }

  /** There is something to scan: the last line is complete, or its newline has just been made an n in a string. */
  predicate Scans(s: Scrub) {
    EndsLine(s.input) || (s.state == 5 && s.input == "n")
  }

  lemma ScansToTheEnd(s: Scrub)
    requires Scans(s)
    ensures Ends(s)
  {
    if s.state == 8 {
      EndsAtNewline(s.input);
    }
    hide LineEnd, EndsLine;
  }

  /** While there is something to scan, no call loses or adds a newline, but for a quote directly before one. */
  lemma NextConserves(t: Target, s: Scrub)
    requires IsTarget(t) && Valid(s) && Ends(s) && Scans(s)
    ensures Conserves(s, Next(t, s))
  {
    if !EndsLine(s.input) {
      assert Newlines("n") == 0 && Newlines("") == 0;
    } else {
      hide Newlines, Flush, AfterWhite, LineEnd, LineNumber, InString, InEscape, IsTarget;
      match s.state
      case 4 => LineNumberConserves(t, s);
      case 5 => StringConserves(s);
      case 6 => StringConserves(s);
      case 7 =>
        assert s.input == [s.input[0]] + s.input[1..];
        OneMore(s.input[0], s.input[1..]);
      case 8 => EndsAtNewline(s.input);
      case -1 =>
      case _ => FlushConserves(t, s, false);
    }
  }

  // ---------------------------------------------------------------- the text stays whole

  /** Nothing is left, or complete lines. */
  predicate Lines(s: string) {
    s == "" || EndsLine(s)
  }

  lemma {:induction false} FlushLines(t: Target, s: Scrub, dropped: bool)
    requires IsTarget(t) && Whole(s.input)
    ensures Lines(Flush(t, s, dropped).s.input)
    decreases |s.input|
  {
    hide CommentEnd, CommentNewlines, LineEnd, Misc, AfterWhite, DecimalText, IsTarget;
    if s.input != "" {
      var c, rest := s.input[0], s.input[1..];
      if c in {' ', '\t'} {
        var r := AfterWhite(rest);
        if r != "" {
          WhiteEndsLine(rest);
          if DropsWhite(t, s, r) {
            FlushLines(t, s.(input := r), true);
          } else if s.state !in {0, 2} {
            FlushLines(t, s.(state := if s.state == 9 then 10 else s.state, input := r), true);
          }
        }
      } else if c == '/' {
        SlashLines(t, s, dropped);
      } else if c !in {'\'', '\n', '"', ':', t.separator} {
        MiscLines(t, s, c, rest, dropped);
      }
    }
  }

  lemma {:induction false} SlashLines(t: Target, s: Scrub, dropped: bool)
    requires IsTarget(t) && EndsLine(s.input) && s.input[0] == '/'
    ensures Lines(Flush(t, s, dropped).s.input)
    decreases |s.input|, 0
  {
    hide Newlines, CommentEnd, CommentNewlines, LineEnd, Misc, AfterWhite;
    var rest := s.input[1..];
    assert s.input == ['/'] + rest;
    if rest[0] == '*' {
      CommentTextConserves(rest, s.input);
      FlushLines(t, s.(input := " " + CommentEnd(rest[1..]), addNewlines := s.addNewlines + CommentNewlines(rest[1..])), true);
    } else if rest[0] == '/' && t.slashes {
      LineTextConserves(rest, s.input);
      FlushLines(t, s.(input := LineEnd(rest[1..])), true);
    } else {
      MiscLines(t, s, '/', rest, dropped);
    }
  }

  lemma MiscLines(t: Target, s: Scrub, c: char, rest: string, dropped: bool)
    requires EndsLine(rest)
    ensures Lines(Misc(t, s, c, rest, dropped).s.input)
  {
    assert EndsLine([c] + rest);
    WhiteEndsLine(rest);
    LineEndsLine(rest);
    LineEndsLine(AfterWhite(rest));
    hide AfterWhite, LineEnd;
  }

  lemma LineNumberLines(t: Target, s: Scrub)
    requires EndsLine(s.input)
    ensures Lines(LineNumber(t, s).s.input)
  {
    WhiteEndsLine(s.input);
    LineEndsLine(AfterWhite(s.input));
    hide AfterWhite, LineEnd;
  }

  /** After a call there is something to scan again, or nothing is left. */
  lemma NextScans(t: Target, s: Scrub)
    requires IsTarget(t) && Valid(s) && Ends(s) && Scans(s)
    ensures var s' := Next(t, s).s; s'.input == "" || Scans(s')
  {
    hide Flush, AfterWhite, LineEnd, LineNumber, IsTarget;
    if EndsLine(s.input) {
      match s.state
      case 4 => LineNumberLines(t, s);
      case 5 =>
      case 6 => assert s.input[1..] != "" ==> EndsLine("n" + s.input[1..]);
      case 7 =>
      case 8 => LineEndsLine(s.input);
      case -1 =>
      case _ => FlushLines(t, s, false);
    }
  }

  lemma EndsAtNewline(s: string)
    requires EndsLine(s)
    ensures LineEnd(s) != "" && Newlines(LineEnd(s)[1..]) + 1 == Newlines(s)
  {
    LineNewlines(s);
    LineEndsLine(s);
  }

  // ---------------------------------------------------------------- no symbols are joined

  /** After a symbol character the code is in no state that drops blanks for good. */
  predicate Apart(s: Scrub, last: Option<char>) {
    last.Some? && IsSymbol(last.value) ==> s.state !in {0, 1, 3, 10} || s.input == ""
  }

  /** A call that dropped blanks or a comment did not return a symbol character. */
  predicate KeepsApart(r: Result) {
    r.dropped && r.c.Some? ==> !IsSymbol(r.c.value)
  }

  /** When blanks have been dropped without a trace, no symbol character comes next. */
  predicate NothingJoined(s: Scrub, dropped: bool) {
    s.state in {2, 9, 10} && (dropped && s.state != 10 ==> s.input == "" || !IsSymbol(s.input[0]))
  }

  lemma EndLineApart(s: Scrub, rest: string)
    ensures KeepsApart(EndLine(s, rest)) && Apart(EndLine(s, rest).s, EndLine(s, rest).c)
    ensures Apart(LineComment(s, rest).s, LineComment(s, rest).c)
  {
    hide AfterWhite, LineEnd;
  }

  lemma MiscApart(t: Target, s: Scrub, c: char, rest: string, dropped: bool)
    requires IsTarget(t)
    ensures Apart(Misc(t, s, c, rest, dropped).s, Misc(t, s, c, rest, dropped).c)
    ensures s.state != 0 && (s.state == 10 || !IsSymbol(c) || !dropped) ==> KeepsApart(Misc(t, s, c, rest, dropped))
  {
    hide LineComment, EndLine;
    var state :=
      if IsSymbol(c) then (if s.state == 3 then 9 else s.state)
      else if s.state in {9, 10} then 3
      else s.state;
    EndLineApart(s.(state := state, input := rest), rest);
  }

  lemma {:induction false} FlushApart(t: Target, s: Scrub, dropped: bool)
    requires IsTarget(t) && s.state in {0, 1, 2, 3, 9, 10}
    ensures Flush(t, s, dropped).c.Some? ==> Apart(Flush(t, s, dropped).s, Flush(t, s, dropped).c)
    ensures NothingJoined(s, dropped) ==> KeepsApart(Flush(t, s, dropped))
    decreases |s.input|
  {
    hide Misc, AfterWhite, LineEnd, CommentEnd, CommentNewlines, DecimalText;
    if s.input != "" {
      var c, rest := s.input[0], s.input[1..];
      if c in {' ', '\t'} {
        WhiteApart(t, s, rest, dropped);
      } else if c == '/' {
        SlashApart(t, s, rest, dropped);
      } else if c !in {'\n', '"', ':', '\'', t.separator} {
        MiscApart(t, s, c, rest, dropped);
      }
    }
  }

  lemma {:induction false} WhiteApart(t: Target, s: Scrub, rest: string, dropped: bool)
    requires IsTarget(t) && s.state in {0, 1, 2, 3, 9, 10} && s.input != "" && s.input[0] in {' ', '\t'} && rest == s.input[1..]
    ensures Flush(t, s, dropped).c.Some? ==> Apart(Flush(t, s, dropped).s, Flush(t, s, dropped).c)
    ensures NothingJoined(s, dropped) ==> KeepsApart(Flush(t, s, dropped))
    decreases |s.input|, 0
  {
    hide Misc, AfterWhite, LineEnd, CommentEnd, CommentNewlines, DecimalText;
    var r := AfterWhite(rest);
    if r != "" {
      if DropsWhite(t, s, r) {
        FlushApart(t, s.(input := r), true);
      } else if s.state !in {0, 2} {
        FlushApart(t, s.(state := if s.state == 9 then 10 else s.state, input := r), true);
      }
    }
  }

  lemma {:induction false} SlashApart(t: Target, s: Scrub, rest: string, dropped: bool)
    requires IsTarget(t) && s.state in {0, 1, 2, 3, 9, 10} && s.input != "" && s.input[0] == '/' && rest == s.input[1..]
    ensures Flush(t, s, dropped).c.Some? ==> Apart(Flush(t, s, dropped).s, Flush(t, s, dropped).c)
    ensures NothingJoined(s, dropped) ==> KeepsApart(Flush(t, s, dropped))
    decreases |s.input|, 0
  {
    hide Misc, AfterWhite, LineEnd, CommentEnd, CommentNewlines, DecimalText;
    if rest != "" && rest[0] == '*' {
      FlushApart(t, s.(input := " " + CommentEnd(rest[1..]), addNewlines := s.addNewlines + CommentNewlines(rest[1..])), true);
    } else if rest != "" && rest[0] == '/' && t.slashes {
      FlushApart(t, s.(input := LineEnd(rest[1..])), true);
    } else {
      MiscApart(t, s, '/', rest, dropped);
    }
  }

  /** Two symbol characters that blanks or a comment stood between are never returned one after the other. */
  lemma NextKeepsApart(t: Target, s: Scrub, last: Option<char>)
    requires IsTarget(t) && Valid(s) && Ends(s) && Apart(s, last)
    ensures var r := Next(t, s);
      && (last.Some? && IsSymbol(last.value) ==> KeepsApart(r))
      && (r.c.Some? ==> Apart(r.s, r.c))
  {
    hide Flush, AfterWhite, LineEnd, IsTarget;
    if s.state in {0, 1, 2, 3, 9, 10} {
      if s.input == "" {
        FlushNothing(t, s, false);
      }
      FlushApart(t, s, false);
    } else {
      SeparatorIsNoSymbol(t);
    }
  }

  lemma SeparatorIsNoSymbol(t: Target)
    requires IsTarget(t)
    ensures !IsSymbol(t.separator)
  {
  }

  // ---------------------------------------------------------------- runs

  lemma QuotedOut(n: nat)
    ensures PutOut(("(" + DecimalText(n) + ")")[1..])
  {
    DecimalTextStart(n);
    hide DecimalText;
    assert ("(" + DecimalText(n) + ")")[1..] == DecimalText(n) + ")";
  }

  lemma {:induction false} FlushValid(t: Target, s: Scrub, dropped: bool)
    requires IsTarget(t) && s.state in {0, 1, 2, 3, 9, 10}
    ensures Valid(Flush(t, s, dropped).s)
    decreases |s.input|
  {
    hide AfterWhite, LineEnd, CommentEnd, CommentNewlines, DecimalText, Misc, IsTarget;
    if s.input != "" {
      var c, rest := s.input[0], s.input[1..];
      if c in {' ', '\t'} {
        var r := AfterWhite(rest);
        if r != "" {
          if DropsWhite(t, s, r) {
            FlushValid(t, s.(input := r), true);
          } else if s.state !in {0, 2} {
            FlushValid(t, s.(state := if s.state == 9 then 10 else s.state, input := r), true);
          }
        }
      } else if c == '/' {
        if rest != "" && rest[0] == '*' {
          FlushValid(t, s.(input := " " + CommentEnd(rest[1..]), addNewlines := s.addNewlines + CommentNewlines(rest[1..])), true);
        } else if rest != "" && rest[0] == '/' && t.slashes {
          FlushValid(t, s.(input := LineEnd(rest[1..])), true);
        } else {
          MiscValid(t, s, '/', rest, dropped);
        }
      } else if c == '\'' {
        QuotedOut(if rest == "" then 0 else rest[0] as nat % 256);
      } else {
        MiscValid(t, s, c, rest, dropped);
      }
    }
  }

  lemma MiscValid(t: Target, s: Scrub, c: char, rest: string, dropped: bool)
    requires IsTarget(t) && s.state in {0, 1, 2, 3, 9, 10}
    ensures Valid(Misc(t, s, c, rest, dropped).s)
  {
    hide AfterWhite, LineEnd, IsTarget;
  }

  lemma NextValid(t: Target, s: Scrub)
    requires IsTarget(t) && Valid(s) && Ends(s)
    ensures Valid(Next(t, s).s)
  {
    hide Flush, AfterWhite, LineEnd, LineNumber, InString, InEscape;
    if s.state == 4 {
      LineNumberValid(t, s);
    } else if s.state in {5, 6} {
      StringValid(s);
    } else if s.state in {0, 1, 2, 3, 9, 10} {
      FlushValid(t, s, false);
    }
  }

  lemma LineNumberValid(t: Target, s: Scrub)
    requires IsTarget(t) && s.state == 4
    ensures Valid(LineNumber(t, s).s)
  {
    hide AfterWhite, LineEnd;
  }

  lemma StringValid(s: Scrub)
    requires Valid(s) && s.state in {5, 6}
    ensures Valid(InString(s).s) && Valid(InEscape(s).s)
  {
  }

  /** The text that n calls return, the state after them, and how many newlines became character constants. */
  datatype Run = Run(s: Scrub, text: string, eaten: nat)

  /** n calls, or as many as it takes to read all of the file. */
  function RunOf(t: Target, s: Scrub, n: nat): Run
    requires IsTarget(t) && Valid(s) && (s.input == "" || Scans(s))
    decreases n
  {
    if n == 0 || s.input == "" then Run(s, "", 0) else
      ScansToTheEnd(s);
      NextValid(t, s);
      NextScans(t, s);
      var r := Next(t, s);
      var run := RunOf(t, r.s, n - 1);
      Run(run.s, (if r.c.Some? then [r.c.value] else "") + run.text, run.eaten + if r.ate then 1 else 0)
  }

  /** The main result: over every run through a file of complete lines, newlines unread, newlines returned, newlines to be
      made up for and newlines taken for character constants add up to the same number. */
  lemma {:induction false} RunConserves(t: Target, s: Scrub, n: nat)
    requires IsTarget(t) && Valid(s) && (s.input == "" || Scans(s))
    ensures var run := RunOf(t, s, n);
      Pending(run.s) + Newlines(run.text) + run.eaten == Pending(s)
    decreases n
  {
    hide Newlines, Next, Pending, Scans, IsTarget, Valid;
    if n > 0 && s.input != "" {
      ScansToTheEnd(s);
      NextValid(t, s);
      NextScans(t, s);
      NextConserves(t, s);
      var r := Next(t, s);
      RunConserves(t, r.s, n - 1);
      var text := RunOf(t, r.s, n - 1).text;
      if r.c.Some? {
        OneMore(r.c.value, text);
      } else {
        assert "" + text == text;
      }
    } else {
      NoNewlines();
    }
  }

  /** A file of complete lines from its start: every newline is returned, owed, unread, or made a character constant. */
  lemma FileConserves(t: Target, file: string, n: nat)
    requires IsTarget(t) && Lines(file)
    ensures var run := RunOf(t, Scrub(0, 0, 0, "", 0, file), n);
      Pending(run.s) + Newlines(run.text) + run.eaten == Newlines(file)
  {
    hide *;
    AtFirst(file);
    RunConserves(t, Scrub(0, 0, 0, "", 0, file), n);
  }

  lemma AtFirst(file: string)
    requires Lines(file)
    ensures var s := Scrub(0, 0, 0, "", 0, file);
      Valid(s) && (s.input == "" || Scans(s)) && Pending(s) == Newlines(file) && Apart(s, None)
  {
    hide Newlines;
  }

  /** A quote directly before a newline eats it. */
  lemma EatenNewlineExample(t: Target)
    requires IsTarget(t)
    ensures var run := RunOf(t, Scrub(2, 0, 0, "", 0, "'\n"), 1);
      run.eaten == 1 && run.text == "(" && Pending(run.s) == 0 && Pending(Scrub(2, 0, 0, "", 0, "'\n")) == 1
  {
    var s := Scrub(2, 0, 0, "", 0, "'\n");
    hide Misc, AfterWhite, LineEnd, CommentEnd, DecimalText;
    assert Next(t, s) == Flush(t, s, false);
    assert Newlines("\n") == 1 && Newlines("'\n") == 1;
    assert RunOf(t, Next(t, s).s, 0).text == "";
  }

  /** No call of a run joins a symbol character to the last one returned. */
  predicate NeverJoins(t: Target, s: Scrub, last: Option<char>, n: nat)
    requires IsTarget(t) && Valid(s) && (s.input == "" || Scans(s))
    decreases n
  {
    if n == 0 || s.input == "" then true
    else
      ScansToTheEnd(s);
      NextValid(t, s);
      NextScans(t, s);
      var r := Next(t, s);
      && (last.Some? && IsSymbol(last.value) ==> KeepsApart(r))
      && (r.c.Some? ==> NeverJoins(t, r.s, r.c, n - 1))
  }

  lemma {:induction false} RunNeverJoins(t: Target, s: Scrub, last: Option<char>, n: nat)
    requires IsTarget(t) && Valid(s) && (s.input == "" || Scans(s)) && Apart(s, last)
    ensures NeverJoins(t, s, last, n)
    decreases n
  {
    hide Next, IsTarget, Valid, Apart, KeepsApart, Scans, IsSymbol;
    if n > 0 && s.input != "" {
      ScansToTheEnd(s);
      NextValid(t, s);
      NextScans(t, s);
      NextKeepsApart(t, s, last);
      if Next(t, s).c.Some? {
        RunNeverJoins(t, Next(t, s).s, Next(t, s).c, n - 1);
      }
    }
  }

  /** So from the start of any file of complete lines no two symbol characters are joined. */
  lemma FileNeverJoins(t: Target, file: string, n: nat)
    requires IsTarget(t) && Lines(file)
    ensures NeverJoins(t, Scrub(0, 0, 0, "", 0, file), None, n)
  {
    hide *;
    AtFirst(file);
    RunNeverJoins(t, Scrub(0, 0, 0, "", 0, file), None, n);
  }

  // ---------------------------------------------------------------- the program

  lemma MiscOfRest(t: Target, s: Scrub, rest: string, c: char, dropped: bool)
    ensures Misc(t, s.(input := rest), c, rest, dropped) == Misc(t, s, c, rest, dropped)
  {
    hide LineComment, EndLine;
  }

  /** The static variables and the file. */
  class Source {
    const target: Target
    var state: int
    var substate: nat
    var oldState: int
    var outString: string
    var addNewlines: nat
    var file: string            // what is left of it, and what was pushed back

    /** do_scrub_begin, and a file that has just been opened. */
    constructor (target: Target, file: string)
      ensures this.target == target && View() == Scrub(0, 0, 0, "", 0, file)
    {
      this.target, this.file := target, file;
      state, substate, oldState, outString, addNewlines := 0, 0, 0, "", 0;
    }

    function View(): Scrub
      reads this
    {
      Scrub(state, substate, oldState, outString, addNewlines, file)
    }

    /** getc: nothing at the end of the file. */
    method GetC() returns (c: Option<char>)
      modifies this`file
      ensures old(file) == "" ==> c == None && file == ""
      ensures old(file) != "" ==> c == Some(old(file[0])) && file == old(file[1..])
    {
      if file == "" {
        return None;
      }
      c := Some(file[0]);
      file := file[1..];
    }

    /** ungetc: the end of the file is not pushed back. */
    method UngetC(c: Option<char>)
      modifies this`file
      ensures file == (if c.Some? then [c.value] else "") + old(file)
    {
      if c.Some? {
        file := [c.value] + file;
      }
    }

    /** Reads on to a character that is not blank. */
    method GetNonWhite() returns (c: Option<char>)
      modifies this`file
      ensures var r := AfterWhite(old(file));
        if r == "" then c == None && file == "" else c == Some(r[0]) && file == r[1..]
    {
      c := GetC();
      while c.Some? && IsWhite(c.value)
        invariant AfterWhite((if c.Some? then [c.value] else "") + file) == AfterWhite(old(file))
        invariant c.None? ==> file == ""
        decreases |file| + (if c.Some? then 1 else 0)
      {
        assert ([c.value] + file)[1..] == file;
        c := GetC();
      }
    }

    /** Reads on to a newline. */
    method GetNewline() returns (c: Option<char>)
      modifies this`file
      ensures var r := LineEnd(old(file));
        if r == "" then c == None && file == "" else c == Some('\n') && file == r[1..]
    {
      c := GetC();
      while c.Some? && c.value != '\n'
        invariant LineEnd((if c.Some? then [c.value] else "") + file) == LineEnd(old(file))
        invariant c.None? ==> file == ""
        decreases |file| + (if c.Some? then 1 else 0)
      {
        assert ([c.value] + file)[1..] == file;
        c := GetC();
      }
    }

    /** Reads a comment to its end and counts its newlines. */
    method SkipComment()
      modifies this`file, this`addNewlines
      ensures file == CommentEnd(old(file)) && addNewlines == old(addNewlines) + CommentNewlines(old(file))
    {
      while true
        invariant CommentEnd(file) == CommentEnd(old(file))
        invariant addNewlines + CommentNewlines(file) == old(addNewlines) + CommentNewlines(old(file))
        decreases |file|
      {
        ghost var before := file;
        var c := GetC();
        if c.None? {
          return;
        }
        if c.value == '\n' {
          addNewlines := addNewlines + 1;
        }
        if c.value == '*' {
          var d := GetC();
          if d.None? {
            assert before[1..] == "" && CommentEnd("") == "" && CommentNewlines("") == 0;
            return;
          }
          if d.value == '/' {
            assert before[2..] == file;
            return;
          }
          UngetC(d);
          assert file == before[1..];
        }
      }
    }

    /** A comment to the end of its line. */
    method DropLine() returns (c: Option<char>)
      modifies this
      ensures Result(View(), c, true, false) == EndLine(old(View()), old(file))
    {
      c := GetNewline();
      state, substate := 0, 0;
      return Some('\n');
    }

    /** A comment at the start of a line. */
    method DropLineComment() returns (c: Option<char>)
      modifies this
      ensures Result(View(), c, true, false) == LineComment(old(View()), old(file))
    {
      hide AfterWhite, LineEnd;
      c := GetNonWhite();
      if c.None? {
        return Some('\n');
      }
      ghost var r := AfterWhite(old(file));
      UngetC(c);
      assert file == r;
      if !IsDigit(c.value) {
        c := DropLine();
        return;
      }
      oldState, state, outString := 4, -1, "line ";
      return Some('.');
    }

    /** deal_misc. */
    method DealMisc(ch: char, ghost dropped: bool) returns (c: Option<char>)
      modifies this
      ensures View() == Misc(target, old(View()), ch, old(file), dropped).s
      ensures c == Misc(target, old(View()), ch, old(file), dropped).c
    {
      hide LineComment, EndLine, IsSymbol;
      if IsSymbol(ch) {
        if state == 10 {
          UngetC(Some(ch));
          state := 3;
          return Some(' ');
        }
        if state == 3 {
          state := 9;
        }
      } else if state == 9 {
        state := 3;
      } else if state == 10 {
        state := 3;
      }
      if state == 0 && ch in target.lineComments {
        c := DropLineComment();
      } else if ch in target.comments {
        c := DropLine();
      } else {
        if state == 0 || state == 1 {
          state := 2;
        }
        return Some(ch);
      }
    }

    /** Blanks have been read. They are dropped, and more is none; or one is kept. */
    method DealWhite() returns (c: Option<char>, more: bool)
      requires file != "" && file[0] in {' ', '\t'} && state in {0, 1, 2, 3, 9, 10}
      modifies this
      ensures forall dropped :: more ==> Flush(target, old(View()), dropped) == Flush(target, View(), true)
      ensures more ==> |file| < |old(file)| && state in {0, 1, 2, 3, 9, 10}
      ensures forall dropped :: !more ==> Flush(target, old(View()), dropped) == Result(View(), c, true, false)
    {
      hide Misc, CommentEnd, CommentNewlines, LineEnd, DecimalText, AfterWhite;
      ghost var rest := file[1..];
      c := GetC();
      c := GetNonWhite();
      if c.None? {
        return None, false;
      }
      ghost var r := AfterWhite(rest);
      UngetC(c);
      assert file == r;
      var ch := c.value;
      if ch in target.comments || (state == 0 && ch in target.lineComments) || ch == '/' || IsSeparator(target, ch) {
        return None, true;
      }
      if state == 0 || state == 2 {
        if target.i386 {
          if state == 2 {
            if substate == 0 {
              substate := 1;
              return Some(' '), false;
            }
            substate := 0;
          }
        }
        state := state + 1;
        return Some(' '), false;
      }
      if state == 9 {
        state := 10;
      }
      return None, true;
    }

    /** A slash: a comment is dropped, and more is none; or the slash is a character like others. */
    method DealSlash(ghost dropped: bool) returns (c: Option<char>, more: bool)
      requires file != "" && file[0] == '/' && state in {0, 1, 2, 3, 9, 10}
      modifies this
      ensures more ==> Flush(target, old(View()), dropped) == Flush(target, View(), true)
      ensures more ==> |file| < |old(file)| && state in {0, 1, 2, 3, 9, 10}
      ensures !more ==> View() == Flush(target, old(View()), dropped).s && c == Flush(target, old(View()), dropped).c
    {
      hide Flush, Misc, AfterWhite, CommentEnd, CommentNewlines, LineEnd;
      ghost var s := View();
      FlushSlash(target, s, dropped);
      ghost var rest := file[1..];
      c := GetC();
      c := GetC();
      more := true;
      if c == Some('*') {
        SkipComment();
        UngetC(Some(' '));
      } else if c == Some('/') && target.slashes {
        c := GetNewline();
        UngetC(c);
        ghost var r := LineEnd(rest[1..]);
        assert file == r;
      } else {
        UngetC(c);
        assert file == rest;
        more := false;
        if '/' in target.comments || (state == 0 && '/' in target.lineComments) {
          MiscOfRest(target, s, rest, '/', dropped);
          c := DealMisc('/', dropped);
        } else {
          c := Some('/');
        }
      }
    }

    /** A quoted character becomes a number in parentheses. */
    method DealQuote() returns (c: Option<char>)
      requires file != "" && file[0] == '\''
      modifies this
      ensures forall dropped :: View() == Flush(target, old(View()), dropped).s && c == Flush(target, old(View()), dropped).c
    {
      hide DecimalText;
      c := GetC();
      c := GetC();
      var n := if c.None? then 0 else c.value as nat % 256;
      var outBuf := "(" + DecimalText(n) + ")";
      oldState, state, outString := state, -1, outBuf[1..];
      return Some('(');
    }

    /** flushchar: the states between tokens. */
    method FlushChar() returns (c: Option<char>)
      requires state in {0, 1, 2, 3, 9, 10}
      modifies this
      ensures View() == Flush(target, old(View()), false).s && c == Flush(target, old(View()), false).c
    {
      hide Misc, Flush, Next;
      ghost var dropped := false;
      while true
        invariant state in {0, 1, 2, 3, 9, 10}
        invariant Flush(target, View(), dropped) == Flush(target, old(View()), false)
        decreases |file|
      {
        ghost var s := View();
        if file == "" {
          FlushNothing(target, s, dropped);
          return None;
        }
        var ch, more := file[0], false;
        if ch in {' ', '\t'} {
          c, more := DealWhite();
        } else if ch == '/' {
          c, more := DealSlash(dropped);
        } else if ch == '\'' {
          c := DealQuote();
        } else {
          c := DealOther(dropped);
        }
        if !more {
          return;
        }
        dropped := true;
      }
    }

    /** Characters that are neither blanks nor slashes nor single quotes. */
    method DealOther(ghost dropped: bool) returns (c: Option<char>)
      requires file != "" && file[0] !in {' ', '\t', '/', '\''} && state in {0, 1, 2, 3, 9, 10}
      modifies this
      ensures View() == Flush(target, old(View()), dropped).s && c == Flush(target, old(View()), dropped).c
    {
      hide Misc;
      ghost var s := View();
      MiscOfRest(target, s, file[1..], file[0], dropped);
      c := GetC();
      var ch := c.value;
      if ch == '"' {
        oldState, state := state, 5;
      } else if ch == ':' {
        if state != 3 {
          state, substate := 0, 0;
        }
      } else if ch == '\n' || ch == target.separator {
        if ch == '\n' && addNewlines > 0 {
          addNewlines := addNewlines - 1;
          UngetC(c);
          assert file == s.input;
        }
        state, substate := 0, 0;
      } else {
        c := DealMisc(ch, dropped);
      }
    }

    /** After .line. */
    method ScanLineNumber() returns (c: Option<char>)
      modifies this
      ensures View() == LineNumber(target, old(View())).s && c == LineNumber(target, old(View())).c
    {
      hide AfterWhite, LineEnd;
      ghost var s := View();
      c := GetC();
      if c.None? || IsDigit(c.value) {
        return;
      }
      UngetC(c);
      assert file == s.input;
      c := GetNonWhite();
      UngetC(c);
      ghost var r := AfterWhite(s.input);
      assert file == r;
      if c == Some('"') {
        outString, oldState, state := " .file ", 7, -1;
        return Some(target.separator);
      }
      c := GetNewline();
      state := 0;
    }

    /** Inside a string. */
    method ScanString() returns (c: Option<char>)
      modifies this
      ensures View() == InString(old(View())).s && c == InString(old(View())).c
    {
      state := 5;
      c := GetC();
      if c.None? {
        state := oldState;
        UngetC(Some('\n'));
        return Some('"');
      }
      if c.value == '"' {
        state := oldState;
      } else if c.value == '\\' {
        state := 6;
      }
    }

    /** After a backslash. */
    method ScanEscape() returns (c: Option<char>)
      modifies this
      ensures View() == InEscape(old(View())).s && c == InEscape(old(View())).c
    {
      state := 5;
      c := GetC();
      if c.None? {
        return Some('"');
      }
      if c.value == '\n' {
        UngetC(Some('n'));
        addNewlines := addNewlines + 1;
        return Some('\\');
      }
    }

    /** do_scrub_next_char. */
    method NextChar() returns (c: Option<char>)
      requires Valid(View()) && Ends(View())
      modifies this
      ensures View() == Next(target, old(View())).s && c == Next(target, old(View())).c
    {
      hide Flush, LineNumber, InString, InEscape, LineEnd;
      if state == -1 {
        c := Some(outString[0]);
        outString := outString[1..];
        if outString == "" {
          state, oldState := oldState, 3;
        }
      } else if state == 4 {
        c := ScanLineNumber();
      } else if state == 5 {
        c := ScanString();
      } else if state == 6 {
        c := ScanEscape();
      } else if state == 7 {
        c := GetC();
        state, oldState := 5, 8;
      } else if state == 8 {
        c := GetNewline();
        state, substate := 0, 0;
      } else {
        c := FlushChar();
      }
    }
  }

  /** What a slash leads to. */
  lemma FlushSlash(t: Target, s: Scrub, dropped: bool)
    requires s.input != "" && s.input[0] == '/'
    ensures var rest := s.input[1..];
      Flush(t, s, dropped) ==
        if rest != "" && rest[0] == '*' then
          Flush(t, s.(input := " " + CommentEnd(rest[1..]), addNewlines := s.addNewlines + CommentNewlines(rest[1..])), true)
        else if rest != "" && rest[0] == '/' && t.slashes then Flush(t, s.(input := LineEnd(rest[1..])), true)
        else if '/' in t.comments || (s.state == 0 && '/' in t.lineComments) then Misc(t, s, '/', rest, dropped)
        else Return(s.(input := rest), '/', dropped)
  {
    hide Misc, AfterWhite, CommentEnd, CommentNewlines, LineEnd, DecimalText;
  }

  lemma FlushNothing(t: Target, s: Scrub, dropped: bool)
    requires s.input == ""
    ensures Flush(t, s, dropped) == EndOfFile(s, dropped)
  {
  }
}
