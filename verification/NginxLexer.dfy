/**
 * The nginx configuration lexer of the console header checker. The loop is proved against a
 * reader of the remaining text, and the reader is proved to invert every way of laying a
 * statement list out: any gaps and comments, words of bare and quoted spans in any mixture.
 */
module NginxLexer {
  import opened JsText
  import opened Wrappers

  predicate IsQuote(c: char) { c == '"' || c == '\'' }

  predicate IsEnd(c: char) { c == ';' || c == '{' || c == '}' }

  predicate Breaks(c: char) { IsSpace(c) || IsEnd(c) }

  /** left is how much text was left where the statement's first word, or else its end, begins. */
  datatype Mark = Mark(words: seq<string>, end: char, left: nat)

  datatype LexError = OpenQuote(left: nat) | OpenStatement(left: nat)

  function ReadQuoted(s: string, quote: char, acc: string): (r: Option<(string, string)>)
    ensures r.Some? ==> |r.value.1| < |s|
    decreases |s|
  {
    if s == "" then None
    else if s[0] == '\\' && |s| > 1 then ReadQuoted(s[2..], quote, acc + [s[1]])
    else if s[0] == quote then Some((acc, s[1..]))
    else ReadQuoted(s[1..], quote, acc + [s[0]])
  }

  /** One word: a run of bare characters and quoted spans. */
  function ReadWord(s: string, acc: string): (r: Option<(string, string)>)
    ensures r.Some? ==> |r.value.1| <= |s|
    ensures r.Some? && s != "" && !Breaks(s[0]) ==> |r.value.1| < |s|
    decreases |s|
  {
    if s == "" || Breaks(s[0]) then Some((acc, s))
    else if IsQuote(s[0]) then
      match ReadQuoted(s[1..], s[0], acc)
      case None => None
      case Some((word, rest)) => ReadWord(rest, word)
    else ReadWord(s[1..], acc + [s[0]])
  }

  function SkipComment(s: string): (r: string)
    ensures |r| <= |s|
    decreases |s|
  {
    if s == "" || s[0] == '\n' then s else SkipComment(s[1..])
  }

  /** Reads statements; words and left belong to the statement being read. */
  function Lex(s: string, words: seq<string>, left: nat, out: seq<Mark>): Result<seq<Mark>, LexError>
    decreases |s|
  {
    if s == "" then (if words == [] then Ok(out) else Err(OpenStatement(left)))
    else if IsSpace(s[0]) then Lex(s[1..], words, left, out)
    else if s[0] == '#' then Lex(SkipComment(s[1..]), words, left, out)
    else if IsEnd(s[0]) then Lex(s[1..], [], 0, out + [Mark(words, s[0], if words == [] then |s| else left)])
    else match ReadWord(s, "")
      case None => Err(OpenQuote(|s|))
      case Some((word, rest)) => Lex(rest, words + [word], if words == [] then |s| else left, out)
  }

  // ---------------------------------------------------------------- the loop

  /** The line of the character that has `left` characters from it to the end. */
  function LineOf(text: string, left: nat): nat {
    1 + if left <= |text| then Newlines(text[..|text| - left]) else 0
  }

  datatype Statement = Statement(words: seq<string>, end: char, line: nat)

  datatype TokenError = UnterminatedQuote(line: nat) | UnterminatedStatement(line: nat)

  function Lines(text: string, marks: seq<Mark>): seq<Statement> {
    seq(|marks|, i requires 0 <= i < |marks| => Statement(marks[i].words, marks[i].end, LineOf(text, marks[i].left)))
  }

  /** What tokenising a text answers: each line is one plus the newlines before the first word. */
  function Tokens(text: string): Result<seq<Statement>, TokenError> {
    match Lex(text, [], 0, [])
    case Ok(marks) => Ok(Lines(text, marks))
    case Err(OpenQuote(left)) => Err(UnterminatedQuote(LineOf(text, left)))
    case Err(OpenStatement(left)) => Err(UnterminatedStatement(LineOf(text, left)))
  }

  /** From just after an opening quote: to just after its closing quote, or the end of the text. */
  method TakeQuoted(text: string, open: nat, quote: char, before: string, line0: nat)
    returns (closed: bool, word: string, i: nat, line: nat)
    requires open <= |text| && IsQuote(quote) && line0 == 1 + Newlines(text[..open])
    ensures open <= i <= |text| && line == 1 + Newlines(text[..i])
    ensures ReadQuoted(text[open..], quote, before) == if closed then Some((word, text[i..])) else None
  {
    closed, word, i, line := false, before, open, line0;
    while i < |text| && !closed
      invariant open <= i <= |text|
      invariant line == 1 + Newlines(text[..i])
      invariant closed ==> ReadQuoted(text[open..], quote, before) == Some((word, text[i..]))
      invariant !closed ==> ReadQuoted(text[open..], quote, before) == ReadQuoted(text[i..], quote, word)
      decreases |text| - i, !closed
    {
      var q := text[i];
      assert text[i..][1..] == text[i + 1..];
      NewlinesStep(text, i);
      if q == '\\' && i + 1 < |text| {
        assert text[i..][2..] == text[i + 2..];
        NewlinesStep(text, i + 1);
        word := word + [text[i + 1]];
        if text[i + 1] == '\n' {
          line := line + 1;
        }
        i := i + 2;
      } else if q == quote {
        closed := true;
        i := i + 1;
      } else {
        if q == '\n' {
          line := line + 1;
        }
        word := word + [q];
        i := i + 1;
      }
    }
  }

  lemma ReadWordQuote(s: string, acc: string)
    requires s != "" && IsQuote(s[0])
    ensures var q := ReadQuoted(s[1..], s[0], acc);
      ReadWord(s, acc) == if q == None then None else ReadWord(q.value.1, q.value.0)
  {
  }

  /** One word from its first character; not ok when a quote in it is never closed. */
  method TakeWord(text: string, from: nat, line0: nat) returns (ok: bool, word: string, i: nat, line: nat)
    requires from <= |text| && line0 == 1 + Newlines(text[..from])
    ensures from <= i <= |text|
    ensures ok ==> line == 1 + Newlines(text[..i])
    ensures ReadWord(text[from..], "") == if ok then Some((word, text[i..])) else None
  {
    ok, word, i, line := true, "", from, line0;
    while i < |text|
      invariant from <= i <= |text|
      invariant line == 1 + Newlines(text[..i])
      invariant ok
      invariant ReadWord(text[from..], "") == ReadWord(text[i..], word)
      decreases |text| - i
    {
      var c := text[i];
      assert text[i..][1..] == text[i + 1..];
      NewlinesStep(text, i);
      if c == '"' || c == '\'' {
        ReadWordQuote(text[i..], word);
        var closed, longer, next, nextLine := TakeQuoted(text, i + 1, c, word, line);
        if !closed {
          ok := false;
          return;
        }
        word, i, line := longer, next, nextLine;
      } else if Breaks(c) {
        return;
      } else {
        word := word + [c];
        i := i + 1;
      }
    }
  }

  method TakeComment(text: string, from: nat) returns (i: nat)
    requires from <= |text|
    ensures from <= i <= |text|
    ensures SkipComment(text[from..]) == text[i..] && Newlines(text[..i]) == Newlines(text[..from])
  {
    i := from;
    while i < |text| && text[i] != '\n'
      invariant from <= i <= |text|
      invariant SkipComment(text[from..]) == SkipComment(text[i..]) && Newlines(text[..i]) == Newlines(text[..from])
    {
      assert text[i..][1..] == text[i + 1..];
      NewlinesStep(text, i);
      i := i + 1;
    }
  }

  lemma LinesAppend(text: string, marks: seq<Mark>, mark: Mark)
    ensures Lines(text, marks + [mark]) == Lines(text, marks) +
      [Statement(mark.words, mark.end, LineOf(text, mark.left))]
  {
  }

  method Tokenise(text: string) returns (r: Result<seq<Statement>, TokenError>)
    ensures r == Tokens(text)
  {
    var statements: seq<Statement> := [];
    var words: seq<string> := [];
    var line: nat, firstLine: nat := 1, 0;
    var i := 0;
    ghost var marks: seq<Mark>, left: nat := [], 0;
    assert text[0..] == text;
    while i < |text|
      invariant i <= |text|
      invariant line == 1 + Newlines(text[..i])
      invariant Lex(text, [], 0, []) == Lex(text[i..], words, left, marks)
      invariant statements == Lines(text, marks)
      invariant words != [] ==> firstLine == LineOf(text, left)
      decreases |text| - i
    {
      var ch := text[i];
      assert text[i..][1..] == text[i + 1..];
      NewlinesStep(text, i);
      if ch == '\n' {
        line := line + 1;
        i := i + 1;
      } else if IsSpace(ch) {
        i := i + 1;
      } else if ch == '#' {
        i := TakeComment(text, i + 1);
      } else if IsEnd(ch) {
        ghost var mark := Mark(words, ch, if words == [] then |text| - i else left);
        statements := statements + [Statement(words, ch, if words != [] then firstLine else line)];
        LinesAppend(text, marks, mark);
        marks, left := marks + [mark], 0;
        words := [];
        i := i + 1;
      } else {
        var wordLine := line;
        ghost var from := i;
        var ok, word;
        ok, word, i, line := TakeWord(text, i, line);
        if !ok {
          return Err(UnterminatedQuote(wordLine));
        }
        if words == [] {
          firstLine := wordLine;
          left := |text| - from;
        }
        words := words + [word];
      }
    }
    if words != [] {
      return Err(UnterminatedStatement(firstLine));
    }
    return Ok(statements);
  }

  // ---------------------------------------------------------------- printing

  /** A character inside quotes, as it is written. */
  datatype Char = Char(c: char, escaped: bool)

  datatype Span = Bare(text: string) | Quoted(quote: char, chars: seq<Char>)

  /** One word as it is written: the gap before it, and its spans. */
  datatype Piece = Piece(gap: string, spans: seq<Span>)

  /** One statement as it is written; last is the gap before its end. */
  datatype Written = Written(pieces: seq<Piece>, last: string, end: char)

  /** White space and comments, each comment closed by its newline. */
  predicate IsGap(g: string)
    decreases |g|
  {
    g == ""
    || (IsSpace(g[0]) && IsGap(g[1..]))
    || (g[0] == '#' && exists n: nat :: n < |g| && CommentTo(g, n) && IsGap(g[n + 1..]))
  }

  predicate CommentTo(g: string, n: nat)
    requires n < |g|
  {
    0 < n && g[n] == '\n' && forall k :: 0 < k < n ==> g[k] != '\n'
  }

  /** What may follow the last statement: the last comment may lack its newline. */
  predicate EndsFile(after: string) { IsGap(after + "\n") }

  /** A gap after a word must not run into it: it is empty or starts with white space. */
  predicate Separates(g: string) { IsGap(g) && (g == "" || IsSpace(g[0])) }

  /** A character that may stand outside quotes: no white space, no end and no quote. */
  predicate IsBareChar(c: char) { !IsSpace(c) && c != ';' && c != '{' && c != '}' && c != '"' && c != '\'' }

  predicate SpanWell(s: Span) {
    match s
    case Bare(text) => text != "" && forall k :: 0 <= k < |text| ==> IsBareChar(text[k])
    case Quoted(quote, chars) => (quote == '"' || quote == '\'') && CharsWell(chars, quote)
  }

  /** The quote and the backslash are written with a backslash; any other character may be. */
  predicate CharsWell(chars: seq<Char>, quote: char) {
    forall k :: 0 <= k < |chars| ==> chars[k].escaped || (chars[k].c != quote && chars[k].c != '\\')
  }

  predicate WrittenWell(w: Written) {
    && (w.end == ';' || w.end == '{' || w.end == '}')
    && PiecesWell(w.pieces)
    && (if w.pieces == [] then IsGap(w.last) else Separates(w.last))
  }

  predicate PieceWell(p: Piece) {
    && IsGap(p.gap) && p.spans != []
    && (forall k :: 0 <= k < |p.spans| ==> SpanWell(p.spans[k]))
    && (p.spans[0].Bare? ==> p.spans[0].text[0] != '#')
  }

  function PrintChar(c: Char): string { if c.escaped then ['\\', c.c] else [c.c] }

  function PrintChars(chars: seq<Char>): string {
    if chars == [] then "" else PrintChar(chars[0]) + PrintChars(chars[1..])
  }

  function PrintSpan(s: Span): string {
    match s
    case Bare(text) => text
    case Quoted(quote, chars) => [quote] + (PrintChars(chars) + [quote])
  }

  function PrintSpans(spans: seq<Span>): string {
    if spans == [] then "" else PrintSpan(spans[0]) + PrintSpans(spans[1..])
  }

  function PrintWord(p: Piece): string { PrintSpans(p.spans) }

  /** The text a word stands for. */
  function WordOf(p: Piece): string { SpansText(p.spans) }

  function SpansText(spans: seq<Span>): string {
    if spans == [] then "" else SpanText(spans[0]) + SpansText(spans[1..])
  }

  function SpanText(s: Span): string {
    match s
    case Bare(text) => text
    case Quoted(_, chars) => seq(|chars|, i requires 0 <= i < |chars| => chars[i].c)
  }

  function PrintPieces(pieces: seq<Piece>): string {
    if pieces == [] then "" else pieces[0].gap + (PrintWord(pieces[0]) + PrintPieces(pieces[1..]))
  }

  function PrintStatement(w: Written): string {
    PrintPieces(w.pieces) + (w.last + [w.end])
  }

  function Print(ws: seq<Written>): string {
    if ws == [] then "" else PrintStatement(ws[0]) + Print(ws[1..])
  }

  function WordsOf(pieces: seq<Piece>): seq<string> {
    if pieces == [] then [] else [WordOf(pieces[0])] + WordsOf(pieces[1..])
  }

  /** The length of a written statement from its first word, or else from its end. */
  function FromFirst(w: Written): nat {
    if w.pieces == [] then 1 else |PrintWord(w.pieces[0])| + |PrintPieces(w.pieces[1..])| + |w.last| + 1
  }

  /** The marks a layout has: the words, the end, and what is left from the first word. */
  function MarksOf(ws: seq<Written>, after: nat): seq<Mark> {
    if ws == [] then []
    else [Mark(WordsOf(ws[0].pieces), ws[0].end, FromFirst(ws[0]) + |Print(ws[1..])| + after)] + MarksOf(ws[1..], after)
  }

  // ---------------------------------------------------------------- the reader inverts the printer

  lemma {:induction false} SkipTo(g: string, n: nat, rest: string)
    requires n < |g| && g[n] == '\n' && forall k :: 0 <= k < n ==> g[k] != '\n'
    ensures SkipComment(g + rest) == g[n..] + rest
    decreases n
  {
    if n == 0 {
      assert g[0..] == g;
    } else {
      assert (g + rest)[1..] == g[1..] + rest;
      SkipTo(g[1..], n - 1, rest);
      assert g[1..][n - 1..] == g[n..];
    }
  }

  /** A comment is passed to after its newline. */
  lemma LexComment(g: string, n: nat, rest: string, words: seq<string>, left: nat, out: seq<Mark>)
    requires n < |g| && CommentTo(g, n) && g[0] == '#'
    ensures Lex(g + rest, words, left, out) == Lex(g[n + 1..] + rest, words, left, out)
  {
    var tail := g[n + 1..] + rest;
    assert (g + rest)[1..] == g[1..] + rest;
    SkipTo(g[1..], n - 1, rest);
    assert g[1..][n - 1..] + rest == ['\n'] + tail;
    assert (['\n'] + tail)[1..] == tail;
  }

  lemma {:induction false} LexGap(g: string, rest: string, words: seq<string>, left: nat, out: seq<Mark>)
    requires IsGap(g)
    ensures Lex(g + rest, words, left, out) == Lex(rest, words, left, out)
    decreases |g|
  {
    if g == "" {
      assert g + rest == rest;
    } else if IsSpace(g[0]) && IsGap(g[1..]) {
      assert (g + rest)[1..] == g[1..] + rest;
      LexGap(g[1..], rest, words, left, out);
    } else {
      var n: nat :| n < |g| && CommentTo(g, n) && IsGap(g[n + 1..]);
      LexComment(g, n, rest, words, left, out);
      LexGap(g[n + 1..], rest, words, left, out);
    }
  }

  /** One character inside quotes. */
  lemma ReadChar(c: Char, quote: char, tail: string, acc: string)
    requires IsQuote(quote) && (c.escaped || (c.c != quote && c.c != '\\')) && tail != ""
    ensures ReadQuoted(PrintChar(c) + tail, quote, acc) == ReadQuoted(tail, quote, acc + [c.c])
  {
    if c.escaped {
      assert (['\\', c.c] + tail)[2..] == tail;
    } else {
      assert ([c.c] + tail)[1..] == tail;
    }
  }

  lemma CharsPrint(chars: seq<Char>, rest: string)
    requires chars != []
    ensures PrintChars(chars) + rest == PrintChar(chars[0]) + (PrintChars(chars[1..]) + rest)
  {
    var first, more := PrintChar(chars[0]), PrintChars(chars[1..]);
    assert first + more + rest == first + (more + rest);
  }

  lemma CharsText(chars: seq<Char>, quote: char, acc: string)
    requires chars != []
    ensures acc + SpanText(Quoted(quote, chars)) == acc + [chars[0].c] + SpanText(Quoted(quote, chars[1..]))
  {
    assert SpanText(Quoted(quote, chars)) == [chars[0].c] + SpanText(Quoted(quote, chars[1..]));
  }

  lemma {:induction false} ReadChars(chars: seq<Char>, quote: char, rest: string, acc: string)
    requires IsQuote(quote) && CharsWell(chars, quote)
    ensures ReadQuoted(PrintChars(chars) + ([quote] + rest), quote, acc)
         == Some((acc + SpanText(Quoted(quote, chars)), rest))
    decreases |chars|
  {
    if chars == [] {
      assert "" + ([quote] + rest) == [quote] + rest && ([quote] + rest)[1..] == rest;
      assert acc + SpanText(Quoted(quote, [])) == acc;
    } else {
      CharsPrint(chars, [quote] + rest);
      CharsText(chars, quote, acc);
      ReadChar(chars[0], quote, PrintChars(chars[1..]) + ([quote] + rest), acc);
      ReadChars(chars[1..], quote, rest, acc + [chars[0].c]);
    }
  }

  predicate StopsWord(rest: string) { rest != "" && Breaks(rest[0]) }

  lemma {:induction false} ReadBare(w: string, rest: string, acc: string)
    requires forall k :: 0 <= k < |w| ==> !Breaks(w[k]) && !IsQuote(w[k])
    ensures ReadWord(w + rest, acc) == ReadWord(rest, acc + w)
    decreases |w|
  {
    if w == "" {
      assert w + rest == rest && acc + w == acc;
    } else {
      assert (w + rest)[1..] == w[1..] + rest;
      assert acc + [w[0]] + w[1..] == acc + w;
      ReadBare(w[1..], rest, acc + [w[0]]);
    }
  }

  lemma ReadSpan(s: Span, rest: string, acc: string)
    requires SpanWell(s)
    ensures ReadWord(PrintSpan(s) + rest, acc) == ReadWord(rest, acc + SpanText(s))
  {
    match s
    case Bare(text) =>
      ReadBare(text, rest, acc);
    case Quoted(quote, chars) =>
      var text, body := PrintSpan(s) + rest, PrintChars(chars) + ([quote] + rest);
      assert text == [quote] + body;
      assert text[1..] == body;
      ReadChars(chars, quote, rest, acc);
      ReadWordQuote(text, acc);
  }

  lemma {:induction false} ReadSpans(spans: seq<Span>, rest: string, acc: string)
    requires forall k :: 0 <= k < |spans| ==> SpanWell(spans[k])
    ensures ReadWord(PrintSpans(spans) + rest, acc) == ReadWord(rest, acc + SpansText(spans))
    decreases |spans|
  {
    if spans == [] {
      assert "" + rest == rest && acc + "" == acc;
    } else {
      var first, more := spans[0], spans[1..];
      var tail := PrintSpans(more) + rest;
      assert PrintSpans(spans) + rest == PrintSpan(first) + tail;
      assert acc + SpansText(spans) == acc + SpanText(first) + SpansText(more);
      ReadSpan(first, tail, acc);
      ReadSpans(more, rest, acc + SpanText(first));
    }
  }

  lemma ReadPrinted(p: Piece, rest: string)
    requires PieceWell(p) && StopsWord(rest)
    ensures ReadWord(PrintWord(p) + rest, "") == Some((WordOf(p), rest))
    ensures PrintWord(p) != "" && !Breaks(PrintWord(p)[0]) && PrintWord(p)[0] != '#'
  {
    ReadSpans(p.spans, rest, "");
    assert "" + WordOf(p) == WordOf(p);
    assert SpanWell(p.spans[0]) && PrintWord(p)[0] == PrintSpan(p.spans[0])[0];
  }

  lemma LexWord(p: Piece, rest: string, words: seq<string>, left: nat, out: seq<Mark>)
    requires PieceWell(p) && StopsWord(rest)
    ensures Lex(PrintWord(p) + rest, words, left, out)
         == Lex(rest, words + [WordOf(p)], if words == [] then |PrintWord(p) + rest| else left, out)
  {
    ReadPrinted(p, rest);
    assert PrintWord(p)[0] == (PrintWord(p) + rest)[0];
  }

  predicate PiecesWell(pieces: seq<Piece>) {
    && (forall k :: 0 <= k < |pieces| ==> PieceWell(pieces[k]))
    && (forall k :: 0 < k < |pieces| ==> Separates(pieces[k].gap) && pieces[k].gap != "")
  }

  lemma StopsAfter(pieces: seq<Piece>, tail: string)
    requires PiecesWell(pieces) && pieces != [] && StopsWord(tail)
    ensures StopsWord(PrintPieces(pieces[1..]) + tail)
  {
    if |pieces| > 1 {
      assert PrintPieces(pieces[1..])[0] == pieces[1].gap[0];
    } else {
      assert PrintPieces(pieces[1..]) + tail == tail;
    }
  }

  lemma LexPiece(p: Piece, rest: string, text: string, words: seq<string>, left: nat, out: seq<Mark>)
    requires PieceWell(p) && StopsWord(rest) && text == p.gap + (PrintWord(p) + rest)
    ensures Lex(text, words, left, out)
         == Lex(rest, words + [WordOf(p)], if words == [] then |PrintWord(p)| + |rest| else left, out)
  {
    LexGap(p.gap, PrintWord(p) + rest, words, left, out);
    LexWord(p, rest, words, left, out);
  }

  lemma PiecesCons(pieces: seq<Piece>, tail: string)
    requires pieces != []
    ensures PrintPieces(pieces) + tail == pieces[0].gap + (PrintWord(pieces[0]) + (PrintPieces(pieces[1..]) + tail))
  {
  }

  lemma Concat(words: seq<string>, word: string, more: seq<string>)
    ensures words + ([word] + more) == words + [word] + more
    ensures more == [] ==> words + ([word] + more) == words + [word]
  {
  }

  lemma WordsCons(pieces: seq<Piece>, words: seq<string>)
    requires pieces != []
    ensures words + WordsOf(pieces) == words + [WordOf(pieces[0])] + WordsOf(pieces[1..])
    ensures |pieces| == 1 ==> words + WordsOf(pieces) == words + [WordOf(pieces[0])]
  {
    Concat(words, WordOf(pieces[0]), WordsOf(pieces[1..]));
  }

  /** Where the first word of a statement's pieces begins, from the end of the text. */
  function FirstLeft(pieces: seq<Piece>, tail: string): nat
    requires pieces != []
  {
    |PrintWord(pieces[0])| + |PrintPieces(pieces[1..])| + |tail|
  }

  lemma LexFirstPiece(pieces: seq<Piece>, tail: string, text: string, rest: string, words: seq<string>, left: nat,
                      out: seq<Mark>)
    requires PiecesWell(pieces) && StopsWord(tail) && pieces != []
    requires text == PrintPieces(pieces) + tail && rest == PrintPieces(pieces[1..]) + tail
    ensures Lex(text, words, left, out)
         == Lex(rest, words + [WordOf(pieces[0])], if words == [] then FirstLeft(pieces, tail) else left, out)
  {
    PiecesCons(pieces, tail);
    StopsAfter(pieces, tail);
    LexPiece(pieces[0], rest, text, words, left, out);
  }

  lemma {:induction false} LexPieces(pieces: seq<Piece>, tail: string, text: string, words: seq<string>, left: nat,
                                     out: seq<Mark>)
    requires PiecesWell(pieces) && StopsWord(tail) && pieces != [] && text == PrintPieces(pieces) + tail
    ensures Lex(text, words, left, out)
         == Lex(tail, words + WordsOf(pieces), if words == [] then FirstLeft(pieces, tail) else left, out)
    decreases |pieces|
  {
    var more := pieces[1..];
    var rest := PrintPieces(more) + tail;
    LexFirstPiece(pieces, tail, text, rest, words, left, out);
    WordsCons(pieces, words);
    if more == [] {
      assert rest == tail;
    } else {
      LexPieces(more, tail, rest, words + [WordOf(pieces[0])], if words == [] then FirstLeft(pieces, tail)
        else left, out);
    }
  }

  /** The end of a statement, after its last gap. */
  lemma LexEnd(gap: string, end: char, rest: string, words: seq<string>, left: nat, out: seq<Mark>)
    requires IsGap(gap) && IsEnd(end)
    ensures Lex(gap + ([end] + rest), words, left, out)
         == Lex(rest, [], 0, out + [Mark(words, end, if words == [] then 1 + |rest| else left)])
  {
    LexGap(gap, [end] + rest, words, left, out);
    assert ([end] + rest)[1..] == rest;
  }

  lemma StatementParts(w: Written, rest: string)
    requires WrittenWell(w)
    ensures PrintStatement(w) + rest == PrintPieces(w.pieces) + (w.last + ([w.end] + rest))
    ensures w.pieces != [] ==> StopsWord(w.last + ([w.end] + rest))
  {
    var tail := w.last + ([w.end] + rest);
    assert tail[0] == if w.last == "" then w.end else w.last[0];
  }

  lemma LexStatement(w: Written, rest: string, out: seq<Mark>)
    requires WrittenWell(w)
    ensures Lex(PrintStatement(w) + rest, [], 0, out)
         == Lex(rest, [], 0, out + [Mark(WordsOf(w.pieces), w.end, FromFirst(w) + |rest|)])
  {
    var text, tail, words := PrintStatement(w) + rest, w.last + ([w.end] + rest), WordsOf(w.pieces);
    assert text == PrintPieces(w.pieces) + tail by { StatementParts(w, rest); }
    var left := if w.pieces == [] then 0 else FromFirst(w) + |rest|;
    if w.pieces == [] {
      assert "" + tail == tail;
    } else {
      StatementParts(w, rest);
      LexPieces(w.pieces, tail, text, [], 0, out);
      assert [] + words == words;
    }
    assert Lex(text, [], 0, out) == Lex(tail, words, left, out);
    LexEnd(w.last, w.end, rest, words, left, out);
  }

  lemma Regroup(out: seq<Mark>, m: Mark, more: seq<Mark>)
    ensures out + [m] + more == out + ([m] + more)
  {
  }

  lemma PrintCons(ws: seq<Written>, after: string)
    requires ws != []
    ensures Print(ws) + after == PrintStatement(ws[0]) + (Print(ws[1..]) + after)
  {
    var first, more := PrintStatement(ws[0]), Print(ws[1..]);
    assert Print(ws) == first + more;
  }

  lemma {:induction false} OpenComment(s: string)
    requires forall k :: 0 <= k < |s| ==> s[k] != '\n'
    ensures SkipComment(s) == ""
    decreases |s|
  {
    if s != "" { OpenComment(s[1..]); }
  }

  lemma {:induction false} LexAfter(after: string, out: seq<Mark>)
    requires EndsFile(after)
    ensures Lex(after, [], 0, out) == Ok(out)
    decreases |after|
  {
    if after != "" {
      var g := after + "\n";
      if IsSpace(g[0]) && IsGap(g[1..]) {
        assert g[1..] == after[1..] + "\n";
        LexAfter(after[1..], out);
      } else {
        var n: nat :| n < |g| && CommentTo(g, n) && IsGap(g[n + 1..]);
        if n < |after| {
          var c, rest := after[..n + 1], after[n + 1..];
          assert g[n + 1..] == rest + "\n";
          LexAfter(rest, out);
          assert forall k :: 0 <= k <= n ==> c[k] == g[k];
          LexComment(c, n, rest, [], 0, out);
          assert c + rest == after && c[n + 1..] + rest == rest;
        } else {
          assert forall k :: 0 <= k < |after| - 1 ==> after[1..][k] == g[k + 1];
          OpenComment(after[1..]);
        }
      }
    }
  }

  lemma {:induction false} LexAll(ws: seq<Written>, after: string, out: seq<Mark>)
    requires forall k :: 0 <= k < |ws| ==> WrittenWell(ws[k])
    requires EndsFile(after)
    ensures Lex(Print(ws) + after, [], 0, out) == Ok(out + MarksOf(ws, |after|))
    decreases |ws|
  {
    if ws == [] {
      LexAfter(after, out);
      assert Print(ws) + after == after && out + [] == out;
    } else {
      var w, more := ws[0], ws[1..];
      var rest := Print(more) + after;
      var m := Mark(WordsOf(w.pieces), w.end, FromFirst(w) + |rest|);
      PrintCons(ws, after);
      LexStatement(w, rest, out);
      assert MarksOf(ws, |after|)[0] == m;
      LexAll(more, after, out + [m]);
      Regroup(out, m, MarksOf(more, |after|));
    }
  }

  lemma {:induction false} MarksKeepWords(ws: seq<Written>, after: nat)
    ensures |MarksOf(ws, after)| == |ws|
    ensures forall k :: 0 <= k < |ws| ==>
      MarksOf(ws, after)[k].words == WordsOf(ws[k].pieces) && MarksOf(ws, after)[k].end == ws[k].end
    decreases |ws|
  {
    if ws != [] { MarksKeepWords(ws[1..], after); }
  }

  /**
   * Main result: however a statement list is laid out, tokenising the text gives back every
   * word and every end, with the line of each statement's first word.
   */
  lemma TokensInvertPrint(ws: seq<Written>, after: string)
    requires forall k :: 0 <= k < |ws| ==> WrittenWell(ws[k])
    requires EndsFile(after)
    ensures Tokens(Print(ws) + after) == Ok(Lines(Print(ws) + after, MarksOf(ws, |after|)))
    ensures |MarksOf(ws, |after|)| == |ws|
    ensures forall k :: 0 <= k < |ws| ==>
      && MarksOf(ws, |after|)[k].words == WordsOf(ws[k].pieces)
      && MarksOf(ws, |after|)[k].end == ws[k].end
  {
    LexAll(ws, after, []);
    assert [] + MarksOf(ws, |after|) == MarksOf(ws, |after|);
    MarksKeepWords(ws, |after|);
  }
}
