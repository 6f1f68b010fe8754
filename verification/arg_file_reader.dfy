/** A reader for Java argument files, following the rules of the section
    "java Command-Line Argument Files" of the Java SE 9 `java` tool reference:
    arguments are separated by white space (space, tab, form feed, line
    terminators); `#` outside quotes starts a comment that runs to the end of
    the line; text between single or double quotes is taken literally except
    that a backslash escapes the next character (`\n`, `\r`, `\t`, `\f` stand
    for the control characters, a backslash before a line terminator continues
    the line, any other character stands for itself); quoted and unquoted
    parts written next to each other form one argument.

    It is the partner of `JdkUtil.QuoteArg`: reading the file that
    `writeArgumentsToParameterFile` writes gives back the arguments. */
module ArgFileReader {
  import opened Wrappers
  import opened JdkUtil

  /** Where the reader is within the text. */
  datatype Lexer =
    | FindNext              // between arguments
    | InToken               // inside an argument, outside quotes
    | InQuote(quote: char)  // inside quotes opened by `quote`
    | InEscape(quote: char) // just after a backslash inside quotes
    | SkipLeadWs(quote: char) // after a continued line, skipping its indentation
    | InComment             // after `#`, up to the end of the line

  /** The outcome of reading one character: the next state, the argument read
      so far, and the argument completed by this character, if any. */
  datatype Step = Step(next: Lexer, token: string, emitted: Option<string>)

  predicate IsWhitespace(c: char) {
    c == ' ' || c == '\t' || c == '\n' || c == '\r' || c == FormFeed
  }

  predicate IsLineEnd(c: char) {
    c == '\n' || c == '\r'
  }

  /** The character an escape sequence stands for. */
  function Unescape(c: char): char {
    if c == 'n' then '\n'
    else if c == 'r' then '\r'
    else if c == 't' then '\t'
    else if c == 'f' then FormFeed
    else c
  }

  /** One character outside quotes, inside an argument. */
  function TokenStep(cur: string, c: char): Step {
    if IsWhitespace(c) then Step(FindNext, [], Some(cur))
    else if c == '#' then Step(InComment, [], Some(cur))
    else if c == '"' || c == '\'' then Step(InQuote(c), cur, None)
    else Step(InToken, cur + [c], None)
  }

  /** One character inside quotes. A line terminator ends the argument even
      there. */
  function QuotedStep(q: char, cur: string, c: char): Step {
    if IsLineEnd(c) then Step(FindNext, [], Some(cur))
    else if c == q then Step(InToken, cur, None)
    else if c == '\\' then Step(InEscape(q), cur, None)
    else Step(InQuote(q), cur + [c], None)
  }

  function NextStep(st: Lexer, cur: string, c: char): Step {
    match st
    case FindNext =>
      if IsWhitespace(c) then Step(FindNext, [], None)
      else if c == '#' then Step(InComment, [], None)
      else TokenStep([], c)
    case InToken => TokenStep(cur, c)
    case InQuote(q) => QuotedStep(q, cur, c)
    case InEscape(q) =>
      if IsLineEnd(c) then Step(SkipLeadWs(q), cur, None) else Step(InQuote(q), cur + [Unescape(c)], None)
    case SkipLeadWs(q) => if IsWhitespace(c) then Step(SkipLeadWs(q), cur, None) else QuotedStep(q, cur, c)
    case InComment => if IsLineEnd(c) then Step(FindNext, [], None) else Step(InComment, [], None)
  }

  /** The arguments read from `text`, starting in state `st` with `cur` read
      so far. An argument still open at the end of the text is the last one. */
  function Run(text: string, st: Lexer, cur: string): seq<string>
    decreases |text|
  {
    if |text| == 0 then
      (if st.FindNext? || st.InComment? then [] else [cur])
    else
      var step := NextStep(st, cur, text[0]);
      (if step.emitted.Some? then [step.emitted.value] else []) + Run(text[1..], step.next, step.token)
  }

  /** The arguments an argument file holds. */
  function ReadArgFile(text: string): seq<string> {
    Run(text, FindNext, [])
  }

  /** The arguments without the empty ones. */
  function NonEmpty(args: seq<string>): (r: seq<string>)
    ensures |r| <= |args|
    ensures forall k :: 0 <= k < |r| ==> r[k] != []
  {
    if |args| == 0 then []
    else (if args[0] == [] then [] else [args[0]]) + NonEmpty(args[1..])
  }

  /** Reading the replacement of one character inside an argument appends that
      character. */
  lemma QuoteCharIsRead(c: char, cur: string, rest: string)
    ensures Run(QuoteChar(c) + rest, InToken, cur) == Run(rest, InToken, cur + [c])
  {
    if c == ' ' || c == '#' || c == '\'' {
      WrappedIsRead(c, cur, rest);
    } else if c == '"' || c == '\n' || c == '\r' || c == '\t' || c == FormFeed {
      EscapedIsRead(c, cur, rest);
    } else {
      var t := QuoteChar(c) + rest;
      assert t[0] == c && t[1..] == rest;
    }
  }

  /** Space, `#` and `'` are written between double quotes. */
  lemma WrappedIsRead(c: char, cur: string, rest: string)
    requires c == ' ' || c == '#' || c == '\''
    ensures Run(QuoteChar(c) + rest, InToken, cur) == Run(rest, InToken, cur + [c])
  {
    var t := QuoteChar(c) + rest;
    assert t[0] == '"' && t[1] == c && t[2] == '"' && t[3..] == rest;
    assert Run(t, InToken, cur) == Run(t[1..], InQuote('"'), cur);
    assert Run(t[1..], InQuote('"'), cur) == Run(t[2..], InQuote('"'), cur + [c]);
    assert Run(t[2..], InQuote('"'), cur + [c]) == Run(t[3..], InToken, cur + [c]);
  }

  /** A double quote and the control characters are written as a backslash
      escape between double quotes. */
  lemma EscapedIsRead(c: char, cur: string, rest: string)
    requires c == '"' || c == '\n' || c == '\r' || c == '\t' || c == FormFeed
    ensures Run(QuoteChar(c) + rest, InToken, cur) == Run(rest, InToken, cur + [c])
  {
    var e := if c == '\n' then 'n' else if c == '\r' then 'r' else if c == '\t' then 't'
             else if c == FormFeed then 'f' else '"';
    assert QuoteChar(c) == ['"', '\\', e, '"'];
    EscapeIsRead(e, cur, rest);
  }

  /** The four characters `"\e"` inside an argument append `Unescape(e)`. */
  lemma EscapeIsRead(e: char, cur: string, rest: string)
    requires !IsLineEnd(e)
    ensures Run(['"', '\\', e, '"'] + rest, InToken, cur) == Run(rest, InToken, cur + [Unescape(e)])
  {
    var t := ['"', '\\', e, '"'] + rest;
    var c := Unescape(e);
    assert t[1..] == ['\\', e, '"'] + rest;
    assert t[2..] == [e, '"'] + rest;
    assert t[3..] == ['"'] + rest;
    assert t[4..] == rest;
    assert Run(t, InToken, cur) == Run(t[1..], InQuote('"'), cur);
    assert Run(t[1..], InQuote('"'), cur) == Run(t[2..], InEscape('"'), cur);
    assert Run(t[2..], InEscape('"'), cur) == Run(t[3..], InQuote('"'), cur + [c]);
    assert NextStep(InQuote('"'), cur + [c], '"') == Step(InToken, cur + [c], None);
    assert Run(t[3..], InQuote('"'), cur + [c]) == Run(t[4..], InToken, cur + [c]);
  }

  /** Reading the quoted characters of an argument appends the argument. */
  lemma {:induction false} QuoteEachIsRead(s: string, cur: string, rest: string)
    ensures Run(QuoteEach(s) + rest, InToken, cur) == Run(rest, InToken, cur + s)
  {
    if |s| > 0 {
      var tail := QuoteEach(s[1..]) + rest;
      assert QuoteEach(s) + rest == QuoteChar(s[0]) + tail;
      QuoteCharIsRead(s[0], cur, tail);
      QuoteEachIsRead(s[1..], cur + [s[0]], rest);
      assert cur + [s[0]] + s[1..] == cur + s;
    } else {
      assert QuoteEach(s) + rest == rest;
      assert cur + s == cur;
    }
  }

  /** One line of the file gives back its argument, or nothing when the
      argument is empty. */
  lemma LineIsRead(arg: string, rest: string)
    ensures Run(QuoteArg(arg) + "\n" + rest, FindNext, []) ==
            (if arg == [] then [] else [arg]) + Run(rest, FindNext, [])
  {
    ShortcutAgreesWithLoop(arg);
    var line := QuoteArg(arg) + "\n" + rest;
    if arg == [] {
      assert QuoteArg(arg) == [];
      assert line == "\n" + rest;
      assert line[0] == '\n' && line[1..] == rest;
    } else {
      var q := QuoteEach(arg);
      assert q == QuoteChar(arg[0]) + QuoteEach(arg[1..]);
      assert !IsWhitespace(line[0]);
      assert NextStep(FindNext, [], line[0]) == NextStep(InToken, [], line[0]);
      assert Run(line, FindNext, []) == Run(line, InToken, []);
      assert line == q + ("\n" + rest);
      QuoteEachIsRead(arg, [], "\n" + rest);
      assert [] + arg == arg;
      var tail := "\n" + rest;
      assert tail[0] == '\n' && tail[1..] == rest;
      assert Run(tail, InToken, arg) == [arg] + Run(rest, FindNext, []);
    }
  }

  /** Reading the argument file written for `args` gives back `args`, except
      that an empty argument is written as an empty line and so is lost. */
  lemma {:induction false} ArgFileRoundTrip(args: seq<string>)
    ensures ReadArgFile(ArgFileText(args)) == NonEmpty(args)
  {
    if |args| > 0 {
      LineIsRead(args[0], ArgFileText(args[1..]));
      ArgFileRoundTrip(args[1..]);
    }
  }

  /** An argument without empty entries survives the file unchanged. */
  lemma ArgFileKeepsNonEmptyArguments(args: seq<string>)
    requires forall k :: 0 <= k < |args| ==> args[k] != []
    ensures ReadArgFile(ArgFileText(args)) == args
  {
    ArgFileRoundTrip(args);
    NonEmptyKeepsAll(args);
  }

  lemma {:induction false} NonEmptyKeepsAll(args: seq<string>)
    requires forall k :: 0 <= k < |args| ==> args[k] != []
    ensures NonEmpty(args) == args
  {
    if |args| > 0 {
      NonEmptyKeepsAll(args[1..]);
    }
  }

  /** The empty argument is the one argument the file cannot carry: it is
      returned unquoted, written as an empty line, and wherever it stands in
      the list the file reads as if it had not been there. */
  lemma EmptyArgumentIsLost(front: seq<string>, back: seq<string>)
    ensures QuoteArg([]) == [] && ArgFileText([[]]) == "\n"
    ensures ReadArgFile(ArgFileText(front + [[]] + back)) == ReadArgFile(ArgFileText(front + back))
  {
    EmptyLine();
    ArgFileRoundTrip(front + [[]] + back);
    ArgFileRoundTrip(front + back);
    NonEmptySkipsEmpty(front, back);
  }

  /** An empty entry anywhere in the list is dropped by `NonEmpty`. */
  lemma NonEmptySkipsEmpty(front: seq<string>, back: seq<string>)
    ensures NonEmpty(front + [[]] + back) == NonEmpty(front + back)
  {
    NonEmptyConcat(front + [[]], back);
    NonEmptyConcat(front, [[]]);
    NonEmptyConcat(front, back);
    EmptyLine();
  }

  /** The empty argument is written unquoted on a line of its own and is
      itself dropped by `NonEmpty`. */
  lemma EmptyLine()
    ensures QuoteArg([]) == [] && ArgFileText([[]]) == "\n"
    ensures NonEmpty([[]]) == []
  {
    assert ArgFileText([[]]) == QuoteArg([]) + "\n" + ArgFileText([]);
  }

  /** Dropping the empty entries of a concatenation drops them from each part. */
  lemma {:induction false} NonEmptyConcat(a: seq<string>, b: seq<string>)
    ensures NonEmpty(a + b) == NonEmpty(a) + NonEmpty(b)
  {
    if |a| > 0 {
      assert (a + b)[0] == a[0] && (a + b)[1..] == a[1..] + b;
      NonEmptyConcat(a[1..], b);
    } else {
      assert a + b == b;
    }
  }

  /** A comment runs to the end of its line and holds no argument. */
  lemma {:induction false} CommentIsSkipped(comment: string, rest: string)
    requires forall i :: 0 <= i < |comment| ==> !IsLineEnd(comment[i])
    ensures Run(comment + "\n" + rest, InComment, []) == Run(rest, FindNext, [])
  {
    if |comment| > 0 {
      assert (comment + "\n" + rest)[1..] == comment[1..] + "\n" + rest;
      CommentIsSkipped(comment[1..], rest);
    } else {
      assert (comment + "\n" + rest)[1..] == rest;
    }
  }

  /** A line that starts with `#` holds no argument: the file reads as if the
      line were not there. */
  lemma CommentLineHoldsNoArgument(comment: string, rest: string)
    requires forall i :: 0 <= i < |comment| ==> !IsLineEnd(comment[i])
    ensures ReadArgFile("#" + comment + "\n" + rest) == ReadArgFile(rest)
  {
    var t := "#" + comment + "\n" + rest;
    assert t[1..] == comment + "\n" + rest;
    CommentIsSkipped(comment, rest);
  }
}
