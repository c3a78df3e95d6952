/** The submit line recorded on a job (`submitline.rs`), read back by a POSIX
    shell and by the directive splitter of `sbatch.rs`. */
module Submitline {
  import opened Text

  // ----- rendering

  predicate NeedsQuoting(c: char) {
    IsWhitespace(c) || c in "'\"\\$`|&;<>()*?[]{}!#~"
  }

  /** `arg.replace('\'', r"'\''")`. */
  function EscapeQuotes(arg: string): string {
    if arg == [] then ""
    else (if arg[0] == '\'' then "'\\''" else [arg[0]]) + EscapeQuotes(arg[1..])
  }

  predicate IsPlain(arg: string) {
    arg != [] && forall k :: 0 <= k < |arg| ==> !NeedsQuoting(arg[k])
  }

  function Quote(arg: string): string {
    if arg == [] then "''"
    else if IsPlain(arg) then arg
    else "'" + EscapeQuotes(arg) + "'"
  }

  lemma {:induction false} EscapeQuotesLength(arg: string)
    ensures |EscapeQuotes(arg)| >= |arg|
  {
    if arg != [] {
      EscapeQuotesLength(arg[1..]);
    }
  }

  /** An argument is quoted exactly when it is empty or holds a character that needs it. */
  lemma QuotedWhenNeeded(arg: string)
    ensures Quote(arg) == arg <==> arg != "" && forall k :: 0 <= k < |arg| ==> !NeedsQuoting(arg[k])
  {
    EscapeQuotesLength(arg);
    if arg != "" && !IsPlain(arg) {
      assert |Quote(arg)| == |EscapeQuotes(arg)| + 2;
    }
  }

  function Quoted(args: seq<string>): (quoted: seq<string>)
    ensures |quoted| == |args| && forall i :: 0 <= i < |args| ==> quoted[i] == Quote(args[i])
  {
    seq(|args|, i requires 0 <= i < |args| => Quote(args[i]))
  }

  function Render(args: seq<string>): string {
    Join(Quoted(args), " ")
  }

  // ----- a POSIX shell's reading of a line

  datatype QuoteMode = Unquoted | Escaped | SingleQuoted

  /** `current` is None between words, so an empty quoted word is still a word. */
  datatype Lexer = Lexer(words: seq<string>, current: Option<string>, mode: QuoteMode) | Refused

  /** Characters that make a shell do more than split words when they are unquoted:
      operators, expansions, patterns, comments, double quotes and line ends. */
  predicate IsActive(c: char) {
    c in "\"$`|&;<>()*?[]{}!#~\n"
  }

  function PosixStep(l: Lexer, c: char): Lexer {
    match l
    case Refused => Refused
    case Lexer(words, current, Escaped) =>
      // a backslash and a line end are a line continuation: neither is kept
      if c == '\n' then Lexer(words, current, Unquoted)
      else Lexer(words, Some(current.Or("") + [c]), Unquoted)
    case Lexer(words, current, SingleQuoted) =>
      if c == '\'' then Lexer(words, current, Unquoted)
      else Lexer(words, Some(current.Or("") + [c]), SingleQuoted)
    case Lexer(words, current, Unquoted) =>
      if c == '\'' then Lexer(words, Some(current.Or("")), SingleQuoted)
      else if c == '\\' then Lexer(words, current, Escaped)
      else if c == ' ' || c == '\t' then
        Lexer(if current.Some? then words + [current.value] else words, None, Unquoted)
      else if IsActive(c) then Refused
      else Lexer(words, Some(current.Or("") + [c]), Unquoted)
  }

  function PosixRun(l: Lexer, s: string): Lexer
    decreases |s|
  {
    if s == [] then l else PosixRun(PosixStep(l, s[0]), s[1..])
  }

  /** The words of a line, or an error for a line that is not just words. */
  function PosixSplit(s: string): Outcome<seq<string>> {
    match PosixRun(Lexer([], None, Unquoted), s)
    case Lexer(words, current, Unquoted) => Ok(if current.Some? then words + [current.value] else words)
    case _ => Err
  }

  lemma {:induction false} PosixRunConcat(l: Lexer, a: string, b: string)
    ensures PosixRun(l, a + b) == PosixRun(PosixRun(l, a), b)
    decreases |a|
  {
    if a == [] {
      assert a + b == b;
    } else {
      PosixRunConcat(PosixStep(l, a[0]), a[1..], b);
      assert (a + b)[1..] == a[1..] + b;
    }
  }

  lemma PosixStepsPlain(words: seq<string>, current: Option<string>, c: char)
    requires !NeedsQuoting(c)
    ensures PosixStep(Lexer(words, current, Unquoted), c) == Lexer(words, Some(current.Or("") + [c]), Unquoted)
  {}

  lemma Regroup(a: string, c: char, b: string)
    ensures a + [c] + b == a + ([c] + b)
  {}

  lemma {:induction false} PosixReadsPlain(words: seq<string>, current: Option<string>, arg: string)
    requires IsPlain(arg)
    ensures PosixRun(Lexer(words, current, Unquoted), arg) == Lexer(words, Some(current.Or("") + arg), Unquoted)
    decreases |arg|
  {
    var start, c, rest := Lexer(words, current, Unquoted), arg[0], arg[1..];
    PosixStepsPlain(words, current, c);
    assert arg == [c] + rest;
    PosixRunCons(start, c, rest);
    if rest != [] {
      PosixReadsPlain(words, Some(current.Or("") + [c]), rest);
      Regroup(current.Or(""), c, rest);
    } else {
      assert arg == [c];
    }
  }

  lemma PosixRunCons(l: Lexer, c: char, s: string)
    ensures PosixRun(l, [c] + s) == PosixRun(PosixStep(l, c), s)
  {
    assert ([c] + s)[1..] == s;
  }

  /** `'\''` inside single quotes: close, an escaped quote, open again. */
  lemma PosixReadsEscapedQuote(words: seq<string>, current: string, s: string)
    ensures PosixRun(Lexer(words, Some(current), SingleQuoted), "'\\''" + s)
         == PosixRun(Lexer(words, Some(current + "'"), SingleQuoted), s)
  {
    assert "'\\''" + s == ['\''] + (['\\'] + (['\''] + (['\''] + s)));
    PosixRunCons(Lexer(words, Some(current), SingleQuoted), '\'', ['\\'] + (['\''] + (['\''] + s)));
    PosixRunCons(Lexer(words, Some(current), Unquoted), '\\', ['\''] + (['\''] + s));
    PosixRunCons(Lexer(words, Some(current), Escaped), '\'', ['\''] + s);
    PosixRunCons(Lexer(words, Some(current + "'"), Unquoted), '\'', s);
  }

  lemma {:induction false} PosixReadsEscaped(words: seq<string>, current: string, arg: string)
    ensures PosixRun(Lexer(words, Some(current), SingleQuoted), EscapeQuotes(arg))
         == Lexer(words, Some(current + arg), SingleQuoted)
    decreases |arg|
  {
    if arg == [] {
      assert current + arg == current;
    } else {
      if arg[0] == '\'' {
        PosixReadsEscapedQuote(words, current, EscapeQuotes(arg[1..]));
      } else {
        PosixRunCons(Lexer(words, Some(current), SingleQuoted), arg[0], EscapeQuotes(arg[1..]));
      }
      PosixReadsEscaped(words, current + [arg[0]], arg[1..]);
      assert current + [arg[0]] + arg[1..] == current + arg;
    }
  }

  lemma {:induction false} PosixReadsQuoted(words: seq<string>, arg: string)
    ensures PosixRun(Lexer(words, None, Unquoted), Quote(arg)) == Lexer(words, Some(arg), Unquoted)
  {
    var start := Lexer(words, None, Unquoted);
    if arg != [] && IsPlain(arg) {
      PosixReadsPlain(words, None, arg);
      assert "" + arg == arg;
    } else {
      assert Quote(arg) == "'" + EscapeQuotes(arg) + "'";
      PosixRunConcat(start, "'" + EscapeQuotes(arg), "'");
      PosixRunConcat(start, "'", EscapeQuotes(arg));
      assert PosixRun(start, "'") == Lexer(words, Some(""), SingleQuoted);
      PosixReadsEscaped(words, "", arg);
      assert "" + arg == arg;
    }
  }

  lemma SpaceBetween(head: string, tail: string)
    ensures head + " " + tail == head + (" " + tail)
  {}

  lemma RenderCons(args: seq<string>)
    requires |args| > 1
    ensures Render(args) == Quote(args[0]) + (" " + Render(args[1..]))
  {
    assert Quoted(args)[1..] == Quoted(args[1..]);
    SpaceBetween(Quote(args[0]), Render(args[1..]));
  }

  lemma RenderHead(args: seq<string>) returns (tail: string)
    requires args != []
    ensures Render(args) == Quote(args[0]) + tail
    ensures tail == if |args| == 1 then "" else [' '] + Render(args[1..])
  {
    tail := if |args| == 1 then "" else [' '] + Render(args[1..]);
    if |args| == 1 {
      assert Quote(args[0]) + "" == Quote(args[0]);
    } else {
      RenderCons(args);
    }
  }

  lemma {:induction false} PosixReadsRendered(words: seq<string>, args: seq<string>)
    requires args != []
    ensures var l := PosixRun(Lexer(words, None, Unquoted), Render(args));
            l.Lexer? && l.mode == Unquoted && l.current.Some? && l.words + [l.current.value] == words + args
    decreases |args|
  {
    var tail := RenderHead(args);
    PosixReadsQuoted(words, args[0]);
    PosixRunConcat(Lexer(words, None, Unquoted), Quote(args[0]), tail);
    assert words + [args[0]] + args[1..] == words + args;
    if |args| > 1 {
      PosixRunCons(Lexer(words, Some(args[0]), Unquoted), ' ', Render(args[1..]));
      PosixReadsRendered(words + [args[0]], args[1..]);
    }
  }

  /** A shell splits the recorded line into exactly the submitted arguments as words, and
      nothing in it is expanded, redirected or treated as an operator. */
  lemma PosixRoundTrip(args: seq<string>)
    ensures PosixSplit(Render(args)) == Ok(args)
  {
    if args != [] {
      PosixReadsRendered([], args);
      assert [] + args == args;
    }
  }

  lemma RenderInjective(a: seq<string>, b: seq<string>)
    requires Render(a) == Render(b)
    ensures a == b
  {
    PosixRoundTrip(a);
    PosixRoundTrip(b);
  }

  // ----- the directive splitter of sbatch.rs

  datatype Splitter = Splitter(words: seq<string>, current: string, inSingle: bool, inDouble: bool)

  function SplitStep(st: Splitter, c: char): Splitter {
    if c == '\'' && !st.inDouble then st.(inSingle := !st.inSingle)
    else if c == '"' && !st.inSingle then st.(inDouble := !st.inDouble)
    else if (c == ' ' || c == '\t') && !st.inSingle && !st.inDouble then
      st.(words := Flushed(st), current := "")
    else st.(current := st.current + [c])
  }

  /** Words so far, with the word in progress closed if it has any character. */
  function Flushed(st: Splitter): seq<string> {
    if st.current != "" then st.words + [st.current] else st.words
  }

  function SplitRun(st: Splitter, s: string): Splitter
    decreases |s|
  {
    if s == [] then st else SplitRun(SplitStep(st, s[0]), s[1..])
  }

  function ShellWords(s: string): seq<string> {
    Flushed(SplitRun(Splitter([], "", false, false), s))
  }

  lemma {:induction false} SplitRunConcat(st: Splitter, a: string, b: string)
    ensures SplitRun(st, a + b) == SplitRun(SplitRun(st, a), b)
    decreases |a|
  {
    if a == [] {
      assert a + b == b;
    } else {
      SplitRunConcat(SplitStep(st, a[0]), a[1..], b);
      assert (a + b)[1..] == a[1..] + b;
    }
  }

  /** Words already closed and characters already collected are never taken back. */
  lemma {:induction false} SplitRunOnlyAppends(st: Splitter, s: string)
    requires "" !in st.words
    ensures var out := Flushed(SplitRun(st, s));
            && "" !in out && st.words <= out
            && (st.current != "" ==> |out| > |st.words| && st.current <= out[|st.words|])
    decreases |s|
  {
    if s != [] {
      SplitRunOnlyAppends(SplitStep(st, s[0]), s[1..]);
    }
  }

  /** Outside double quotes, text without quotes and blanks is collected as it is. */
  lemma {:induction false} SplitCollects(st: Splitter, s: string)
    requires !st.inDouble
    requires forall k :: 0 <= k < |s| ==> s[k] != '\'' && (st.inSingle || !NeedsQuoting(s[k]))
    ensures SplitRun(st, s) == st.(current := st.current + s)
    decreases |s|
  {
    if s == [] {
      assert st.current + s == st.current;
    } else {
      assert s[0] != '\'';
      var next := SplitStep(st, s[0]);
      assert next == st.(current := st.current + [s[0]]);
      SplitCollects(next, s[1..]);
      assert st.current + [s[0]] + s[1..] == st.current + s;
    }
  }

  predicate Recoverable(arg: string) {
    arg != "" && '\'' !in arg
  }

  lemma {:induction false} EscapeQuotesIdentity(arg: string)
    requires '\'' !in arg
    ensures EscapeQuotes(arg) == arg
  {
    if arg != [] {
      EscapeQuotesIdentity(arg[1..]);
    }
  }

  lemma SplitReadsQuoted(words: seq<string>, arg: string)
    requires Recoverable(arg)
    ensures SplitRun(Splitter(words, "", false, false), Quote(arg)) == Splitter(words, arg, false, false)
  {
    var start := Splitter(words, "", false, false);
    assert "" + arg == arg;
    if IsPlain(arg) {
      SplitCollects(start, arg);
    } else {
      EscapeQuotesIdentity(arg);
      SplitRunConcat(start, "'" + arg, "'");
      SplitRunConcat(start, "'", arg);
      assert SplitRun(start, "'") == start.(inSingle := true);
      SplitCollects(start.(inSingle := true), arg);
    }
  }

  lemma SplitRunCons(st: Splitter, c: char, s: string)
    ensures SplitRun(st, [c] + s) == SplitRun(SplitStep(st, c), s)
  {
    assert ([c] + s)[1..] == s;
  }

  /** The splitter has no escape character, so a quote in an argument leaves a
      backslash in the word where the argument has the quote. */
  lemma {:induction false} SplitKeepsBackslash(words: seq<string>, current: string, arg: string, tail: string)
    requires "" !in words && '\'' in arg
    ensures var out := Flushed(SplitRun(SplitRun(Splitter(words, current, true, false), EscapeQuotes(arg)), tail));
            |out| > |words| && out[|words|] != current + arg
    decreases |arg|
  {
    var inside := Splitter(words, current, true, false);
    var later := EscapeQuotes(arg[1..]);
    if arg[0] == '\'' {
      assert EscapeQuotes(arg) == ['\''] + (['\\'] + ("''" + later));
      SplitRunCons(inside, '\'', ['\\'] + ("''" + later));
      SplitRunCons(inside.(inSingle := false), '\\', "''" + later);
      var slipped := Splitter(words, current + "\\", false, false);
      SplitRunConcat(slipped, "''" + later, tail);
      SplitRunOnlyAppends(slipped, "''" + later + tail);
      assert slipped.current[|current|] == '\\' && (current + arg)[|current|] == '\'';
    } else {
      SplitRunCons(inside, arg[0], later);
      SplitKeepsBackslash(words, current + [arg[0]], arg[1..], tail);
      assert current + [arg[0]] + arg[1..] == current + arg;
    }
  }

  lemma QuotesAssociate(body: string, tail: string)
    ensures "'" + body + "'" + tail == ['\''] + (body + ("'" + tail))
  {}

  lemma SplitMisreadsQuote(words: seq<string>, arg: string, tail: string)
    requires "" !in words && '\'' in arg
    ensures var out := Flushed(SplitRun(Splitter(words, "", false, false), Quote(arg) + tail));
            |out| > |words| && out[|words|] != arg
  {
    var k :| 0 <= k < |arg| && arg[k] == '\'';
    assert NeedsQuoting(arg[k]);
    QuotesAssociate(EscapeQuotes(arg), tail);
    SplitRunCons(Splitter(words, "", false, false), '\'', EscapeQuotes(arg) + ("'" + tail));
    SplitRunConcat(Splitter(words, "", true, false), EscapeQuotes(arg), "'" + tail);
    SplitKeepsBackslash(words, "", arg, "'" + tail);
    assert "" + arg == arg;
  }

  predicate AllRecoverable(args: seq<string>) {
    forall k :: 0 <= k < |args| ==> Recoverable(args[k])
  }

  lemma AllRecoverableCons(args: seq<string>)
    requires args != []
    ensures AllRecoverable(args) <==> Recoverable(args[0]) && AllRecoverable(args[1..])
  {
    forall k | 0 < k < |args| ensures args[k] == args[1..][k - 1] {}
  }

  /** The words after reading `s` between words, `words` being those read before. */
  function WordsAfter(words: seq<string>, s: string): seq<string> {
    Flushed(SplitRun(Splitter(words, "", false, false), s))
  }

  lemma MisreadsHead(words: seq<string>, args: seq<string>)
    requires "" !in words && args != [] && '\'' in args[0]
    ensures WordsAfter(words, Render(args)) != words + args
  {
    var tail := RenderHead(args);
    SplitMisreadsQuote(words, args[0], tail);
    assert (words + args)[|words|] == args[0];
  }

  lemma ReadsHead(words: seq<string>, args: seq<string>)
    requires args != [] && Recoverable(args[0])
    ensures WordsAfter(words, Render(args)) == WordsAfter(words + [args[0]], Render(args[1..]))
  {
    var tail := RenderHead(args);
    var read := Splitter(words, args[0], false, false);
    SplitReadsQuoted(words, args[0]);
    SplitRunConcat(Splitter(words, "", false, false), Quote(args[0]), tail);
    if |args| > 1 {
      SplitRunCons(read, ' ', Render(args[1..]));
    }
  }

  ghost predicate Recovers(words: seq<string>, args: seq<string>) {
    WordsAfter(words, Render(args)) == words + args
  }

  lemma RecoversNothing(words: seq<string>)
    ensures Recovers(words, [])
  {
    assert words + [] == words;
  }

  lemma HeadAndTail(words: seq<string>, args: seq<string>)
    requires args != []
    ensures words + [args[0]] + args[1..] == words + args
  {}

  lemma RecoversHead(words: seq<string>, args: seq<string>)
    requires args != [] && Recoverable(args[0])
    ensures Recovers(words, args) <==> Recovers(words + [args[0]], args[1..])
  {
    ReadsHead(words, args);
    HeadAndTail(words, args);
  }

  lemma {:induction false} SplitRecovers(words: seq<string>, args: seq<string>)
    requires "" !in words && "" !in args
    ensures Recovers(words, args) <==> AllRecoverable(args)
    decreases |args|
  {
    if args == [] {
      RecoversNothing(words);
    } else {
      AllRecoverableCons(args);
      if '\'' in args[0] {
        MisreadsHead(words, args);
      } else {
        RecoversHead(words, args);
        SplitRecovers(words + [args[0]], args[1..]);
      }
    }
  }

  /** The directive splitter reads a recorded line back exactly when no argument is
      empty and none holds a single quote. */
  lemma ShellSplitRoundTrip(args: seq<string>)
    ensures ShellWords(Render(args)) == args <==> AllRecoverable(args)
  {
    if "" in args {
      var k :| 0 <= k < |args| && args[k] == "";
      assert !Recoverable(args[k]);
      SplitRunOnlyAppends(Splitter([], "", false, false), Render(args));
    } else {
      SplitRecovers([], args);
      assert [] + args == args;
    }
  }
}
