/**
 * The legacy `cmd` string of a remote job, and what a POSIX shell makes of it: the words of
 * the string are the arguments it was printed from.
 */
module ShellCommand {
  import opened Wrappers

  // ---------------------------------------------------------------- the printer

  predicate IsPlainChar(c: char) {
    'A' <= c <= 'Z' || 'a' <= c <= 'z' || '0' <= c <= '9' || c == '_' || c == '/' || c == '-'
  }

  predicate IsPlain(arg: string) {
    arg != "" && forall i :: 0 <= i < |arg| ==> IsPlainChar(arg[i])
  }

  /** Each ' becomes '\'' . */
  function EscapeQuotes(s: string): string {
    if s == "" then "" else (if s[0] == '\'' then "'\\''" else [s[0]]) + EscapeQuotes(s[1..])
  }

  /** Drops a leading run of '' pairs. */
  function StripPairs(s: string): string {
    if |s| >= 2 && s[0] == '\'' && s[1] == '\'' then StripPairs(s[2..]) else s
  }

  /** Replaces every \''' by \' , left to right. */
  function Collapse(s: string): string {
    if s == "" then ""
    else if |s| >= 4 && s[0] == '\\' && s[1] == '\'' && s[2] == '\'' && s[3] == '\'' then "\\'" + Collapse(s[4..])
    else [s[0]] + Collapse(s[1..])
  }

  function Quote(arg: string): string {
    if IsPlain(arg) then arg else Collapse(StripPairs("'" + EscapeQuotes(arg) + "'"))
  }

  function Join(words: seq<string>): string {
    if words == [] then ""
    else if |words| == 1 then words[0]
    else words[0] + " " + Join(words[1..])
  }

  function QuoteAll(args: seq<string>): seq<string> {
    seq(|args|, i requires 0 <= i < |args| => Quote(args[i]))
  }

  function LegacyShellCommand(args: seq<string>): string {
    Join(QuoteAll(args))
  }

  // ---------------------------------------------------------------- the shell

  /** Characters with a meaning of their own outside quotes (section 2.2 of the POSIX.1-2017
      Shell Command Language), blanks, backslash and single quote excepted. */
  const SPECIAL := "|&;<>()$`\"*?[#~=%\n"

  /** Words read so far, the word being read, and whether a single quote is open. */
  datatype Lexer = Lexer(words: seq<string>, word: Option<string>, quoted: bool)

  function Extend(st: Lexer, c: char): Lexer {
    st.(word := Some((if st.word == None then "" else st.word.value) + [c]))
  }

  function Finish(st: Lexer): Lexer {
    if st.word == None then st else st.(words := st.words + [st.word.value], word := None)
  }

  /**
   * Splits and unquotes: blanks end words (section 2.3), a backslash quotes the next character
   * and disappears with a newline (2.2.1), single quotes keep everything literal (2.2.2).
   * None: the text is not one plain command (an open quote, or a special character).
   */
  function Scan(s: string, st: Lexer): Option<seq<string>>
    decreases |s|
  {
    if s == "" then (if st.quoted then None else Some(Finish(st).words))
    else if st.quoted then
      if s[0] == '\'' then Scan(s[1..], st.(quoted := false)) else Scan(s[1..], Extend(st, s[0]))
    else if s[0] == '\'' then
      Scan(s[1..], st.(quoted := true, word := Some(if st.word == None then "" else st.word.value)))
    else if s[0] == '\\' then
      if |s| == 1 then None
      else if s[1] == '\n' then Scan(s[2..], st)
      else Scan(s[2..], Extend(st, s[1]))
    else if s[0] == ' ' || s[0] == '\t' then Scan(s[1..], Finish(st))
    else if s[0] in SPECIAL then None
    else Scan(s[1..], Extend(st, s[0]))
  }

  function ShellWords(command: string): Option<seq<string>> {
    Scan(command, Lexer([], None, false))
  }

  // ---------------------------------------------------------------- one argument

  /** The lexer after it has read arg as (part of) a word. */
  function Took(st: Lexer, arg: string): Lexer {
    Lexer(st.words, Some((if st.word == None then "" else st.word.value) + arg), false)
  }

  /** What follows the opening quote of s. */
  function Body(s: string): string { EscapeQuotes(s) + "'" }

  lemma BodyCons(s: string)
    requires s != ""
    ensures Body(s) == (if s[0] == '\'' then "'\\''" else [s[0]]) + Body(s[1..])
  {
  }

  lemma BodyStart(s: string)
    ensures |Body(s)| >= 1 && (Body(s)[0] == '\'' <==> s == "" || s[0] == '\'')
    ensures !(|Body(s)| >= 2 && Body(s)[0] == '\'' && Body(s)[1] == '\'')
  {
    if s != "" { BodyCons(s); }
  }

  lemma CollapseCons(c: char, s: string)
    requires c != '\\' || !(|s| >= 2 && s[0] == '\'' && s[1] == '\'')
    ensures Collapse([c] + s) == [c] + Collapse(s)
  {
    assert ([c] + s)[1..] == s;
  }

  lemma ScanCons(c: char, s: string, st: Lexer)
    ensures st.quoted ==> Scan([c] + s, st) == Scan(s, if c == '\'' then st.(quoted := false) else Extend(st, c))
    ensures !st.quoted && c == '\'' ==>
      Scan([c] + s, st) == Scan(s, st.(quoted := true, word := Some(if st.word == None then "" else st.word.value)))
    ensures !st.quoted && IsPlainChar(c) ==> Scan([c] + s, st) == Scan(s, Extend(st, c))
    ensures !st.quoted && c == ' ' ==> Scan([c] + s, st) == Scan(s, Finish(st))
  {
    assert ([c] + s)[1..] == s;
  }

  lemma ScanEscapedQuote(s: string, st: Lexer)
    requires !st.quoted
    ensures Scan("\\'" + s, st) == Scan(s, Extend(st, '\''))
  {
    assert ("\\'" + s)[2..] == s;
  }

  lemma TookExtend(st: Lexer, c: char, s: string)
    requires !st.quoted
    ensures Took(Extend(st, c), s) == Took(st, [c] + s)
  {
    var w := if st.word == None then "" else st.word.value;
    assert w + ([c] + s) == (w + [c]) + s;
  }

  /** The collapsed text of what follows an opening quote, and of what follows a closed one. */
  function Tail(s: string): string { Collapse(Body(s)) }

  function EscapedTail(s: string): string { Collapse("\\''" + Body(s)) }

  lemma QuotedChar(s: string, rest: string, st: Lexer)
    requires s != "" && s[0] != '\'' && st.quoted
    ensures Scan(Tail(s) + rest, st) == Scan(Tail(s[1..]) + rest, Extend(st, s[0]))
  {
    BodyCons(s);
    BodyStart(s[1..]);
    CollapseCons(s[0], Body(s[1..]));
    var tail := Tail(s[1..]);
    assert Tail(s) + rest == [s[0]] + (tail + rest);
    ScanCons(s[0], tail + rest, st);
  }

  lemma QuotedQuote(s: string, rest: string, st: Lexer)
    requires s != "" && s[0] == '\'' && st.quoted
    ensures Scan(Tail(s) + rest, st) == Scan(EscapedTail(s[1..]) + rest, st.(quoted := false))
  {
    BodyCons(s);
    var tail := EscapedTail(s[1..]);
    assert Body(s) == ['\''] + ("\\''" + Body(s[1..]));
    CollapseCons('\'', "\\''" + Body(s[1..]));
    assert Tail(s) + rest == ['\''] + (tail + rest);
    ScanCons('\'', tail + rest, st);
  }

  /** A second quote follows: the closing and opening pair between them was collapsed. */
  lemma EscapedPair(t: string, rest: string, st: Lexer)
    requires !st.quoted && Body(t)[0] == '\''
    ensures Scan(EscapedTail(t) + rest, st) == Scan(Collapse(Body(t)[1..]) + rest, Extend(st, '\''))
  {
    var text := "\\''" + Body(t);
    BodyStart(t);
    assert text[4..] == Body(t)[1..];
    var tail := Collapse(Body(t)[1..]);
    assert EscapedTail(t) + rest == "\\'" + (tail + rest);
    ScanEscapedQuote(tail + rest, st);
  }

  lemma EscapedCollapse(t: string)
    requires |Body(t)| > 0 && Body(t)[0] != '\''
    ensures EscapedTail(t) == ['\\'] + (['\''] + (['\''] + Tail(t)))
  {
    var text := "\\''" + Body(t);
    assert text == ['\\'] + (['\''] + (['\''] + Body(t)));
    assert text[3] == Body(t)[0];
    assert text[1..] == ['\''] + (['\''] + Body(t));
    CollapseCons('\'', ['\''] + Body(t));
    CollapseCons('\'', Body(t));
  }

  lemma EscapedSingle(t: string, rest: string, st: Lexer)
    requires !st.quoted && Body(t)[0] != '\''
    ensures Scan(EscapedTail(t) + rest, st) == Scan(Tail(t) + rest, Extend(st, '\'').(quoted := true))
  {
    var tail := Tail(t);
    EscapedCollapse(t);
    assert EscapedTail(t) + rest == "\\'" + (['\''] + (tail + rest));
    ScanEscapedQuote(['\''] + (tail + rest), st);
    ScanCons('\'', tail + rest, Extend(st, '\''));
  }

  lemma TookNothing(st: Lexer)
    requires !st.quoted && st.word.Some?
    ensures Took(st, "") == st
  {
    assert st.word.value + "" == st.word.value;
  }

  lemma TailOfNothing()
    ensures Tail("") == ['\'']
  {
    assert Body("") == ['\''];
    assert ['\''][1..] == "";
    assert Collapse(['\'']) == ['\''] + Collapse("");
  }

  /** Inside the open quote, the rest of the printed argument reads as the rest of the argument. */
  lemma {:induction false} ReadQuoted(s: string, rest: string, st: Lexer)
    requires st.quoted && st.word.Some?
    ensures Scan(Tail(s) + rest, st) == Scan(rest, Took(st, s))
    decreases |s|, 1
  {
    if s == "" {
      TailOfNothing();
      ScanCons('\'', rest, st);
      assert st.word.value + "" == st.word.value;
    } else if s[0] == '\'' {
      QuotedQuote(s, rest, st);
      ReadEscape(s, rest, st.(quoted := false));
    } else {
      QuotedChar(s, rest, st);
      ReadQuoted(s[1..], rest, Extend(st, s[0]));
      assert st.word.value + s == (st.word.value + [s[0]]) + s[1..];
    }
  }

  /** After the quote has been closed for a ' of the argument. */
  lemma {:induction false} ReadEscape(s: string, rest: string, st: Lexer)
    requires s != "" && s[0] == '\'' && !st.quoted
    ensures Scan(EscapedTail(s[1..]) + rest, st) == Scan(rest, Took(st, s))
    decreases |s|, 0
  {
    var t := s[1..];
    BodyStart(t);
    TookExtend(st, '\'', t);
    assert [s[0]] + t == s;
    if Body(t)[0] != '\'' {
      EscapedSingle(t, rest, st);
      ReadQuoted(t, rest, Extend(st, '\'').(quoted := true));
    } else if t == "" {
      EscapedPair(t, rest, st);
      assert Body(t)[1..] == "" && "" + rest == rest;
      TookNothing(Extend(st, '\''));
    } else {
      EscapedPair(t, rest, st);
      BodyCons(t);
      assert Body(t)[1..] == "\\''" + Body(t[1..]);
      ReadEscape(t, rest, Extend(st, '\''));
    }
  }

  lemma {:induction false} ReadPlain(s: string, rest: string, st: Lexer)
    requires s != "" && !st.quoted && forall i :: 0 <= i < |s| ==> IsPlainChar(s[i])
    ensures Scan(s + rest, st) == Scan(rest, Took(st, s))
    decreases |s|
  {
    assert s + rest == [s[0]] + (s[1..] + rest);
    ScanCons(s[0], s[1..] + rest, st);
    TookExtend(st, s[0], s[1..]);
    assert [s[0]] + s[1..] == s;
    if |s| > 1 {
      ReadPlain(s[1..], rest, Extend(st, s[0]));
    } else {
      var w := Extend(st, s[0]).word.value;
      assert w + "" == w;
      assert s[1..] + rest == rest;
    }
  }

  lemma QuoteFromQuote(arg: string)
    requires !IsPlain(arg) && arg != "" && arg[0] == '\''
    ensures Quote(arg) == EscapedTail(arg[1..])
  {
    BodyCons(arg);
    var printed := "'" + EscapeQuotes(arg) + "'";
    assert printed == ['\''] + Body(arg);
    assert printed == "''" + ("\\''" + Body(arg[1..]));
    assert printed[2..] == "\\''" + Body(arg[1..]);
    assert StripPairs(printed) == "\\''" + Body(arg[1..]);
  }

  lemma QuoteFromOther(arg: string)
    requires !IsPlain(arg) && arg != "" && arg[0] != '\''
    ensures Quote(arg) == ['\''] + Tail(arg)
  {
    BodyStart(arg);
    var printed := "'" + EscapeQuotes(arg) + "'";
    assert printed == ['\''] + Body(arg);
    assert StripPairs(printed) == printed;
    CollapseCons('\'', Body(arg));
  }

  lemma QuoteEmpty()
    ensures Quote("") == ""
  {
    assert "'" + EscapeQuotes("") + "'" == "''";
    assert StripPairs("''") == "";
  }

  lemma ReadOpened(arg: string, rest: string, st: Lexer)
    requires !st.quoted && arg != ""
    ensures Scan((['\''] + Tail(arg)) + rest, st) == Scan(rest, Took(st, arg))
  {
    var tail := Tail(arg);
    assert (['\''] + tail) + rest == ['\''] + (tail + rest);
    ScanCons('\'', tail + rest, st);
    ReadQuoted(arg, rest, st.(quoted := true, word := Some(if st.word == None then "" else st.word.value)));
  }

  /** A printed non-empty argument reads back as that argument, whatever follows it; an empty
      one prints as nothing. */
  lemma ReadArgument(arg: string, rest: string, st: Lexer)
    requires !st.quoted
    ensures Scan(Quote(arg) + rest, st) == if arg == "" then Scan(rest, st) else Scan(rest, Took(st, arg))
  {
    if arg == "" {
      QuoteEmpty();
      assert "" + rest == rest;
    } else if IsPlain(arg) {
      ReadPlain(arg, rest, st);
    } else if arg[0] == '\'' {
      QuoteFromQuote(arg);
      ReadEscape(arg, rest, st);
    } else {
      QuoteFromOther(arg);
      ReadOpened(arg, rest, st);
    }
  }

  // ---------------------------------------------------------------- the whole command

  function NonEmpty(args: seq<string>): seq<string> {
    if args == [] then [] else (if args[0] == "" then [] else [args[0]]) + NonEmpty(args[1..])
  }

  lemma CommandCons(args: seq<string>)
    requires |args| > 1
    ensures LegacyShellCommand(args) == Quote(args[0]) + ([' '] + LegacyShellCommand(args[1..]))
  {
    assert QuoteAll(args)[1..] == QuoteAll(args[1..]);
  }

  lemma CommandOne(arg: string)
    ensures LegacyShellCommand([arg]) == Quote(arg) + ""
  {
    assert QuoteAll([arg]) == [Quote(arg)];
  }

  lemma {:induction false} ReadCommand(args: seq<string>, words: seq<string>)
    ensures Scan(LegacyShellCommand(args), Lexer(words, None, false)) == Some(words + NonEmpty(args))
    decreases |args|
  {
    var st := Lexer(words, None, false);
    if args == [] {
      assert words + [] == words;
    } else {
      var head, tail := if args[0] == "" then [] else [args[0]], args[1..];
      var st' := if args[0] == "" then st else Took(st, args[0]);
      assert "" + args[0] == args[0] && words + [] == words;
      assert Finish(st') == Lexer(words + head, None, false);
      assert NonEmpty(args) == head + NonEmpty(tail);
      assert words + head + NonEmpty(tail) == words + NonEmpty(args);
      if tail == [] {
        assert args == [args[0]];
        CommandOne(args[0]);
        ReadArgument(args[0], "", st);
        assert head + [] == head;
      } else {
        CommandCons(args);
        ReadArgument(args[0], [' '] + LegacyShellCommand(tail), st);
        ScanCons(' ', LegacyShellCommand(tail), st');
        ReadCommand(tail, words + head);
      }
    }
  }

  lemma NonEmptyIsAll(args: seq<string>)
    ensures |NonEmpty(args)| <= |args|
    ensures NonEmpty(args) == args <==> "" !in args
  {
    if args != [] {
      NonEmptyIsAll(args[1..]);
      assert args == [args[0]] + args[1..];
    }
  }

  /**
   * Main result: for every list of arguments, a POSIX shell reads the command as exactly the
   * non-empty arguments, in order; so the round trip is exact precisely when none is empty.
   */
  lemma ShellReadsTheArguments(args: seq<string>)
    ensures ShellWords(LegacyShellCommand(args)) == Some(NonEmpty(args))
    ensures ShellWords(LegacyShellCommand(args)) == Some(args) <==> "" !in args
  {
    ReadCommand(args, []);
    NonEmptyIsAll(args);
    assert [] + NonEmpty(args) == NonEmpty(args);
  }
}
