/**
 * The texts the nginx lexer accepts: exactly the layouts of statement lists.
 *
 * Layouts are read off an accepted text from its front: gap by gap, word by word, span by span.
 * Each step of the reader is undone by one lemma, and AcceptedIffLaidOut puts them together with
 * the lexer's own inversion of the printer.
 */
module NginxLayout {
  import opened JsText
  import opened NginxLexer
  import opened Wrappers

  /** A whole file: its statements, and what follows the last. */
  datatype Layout = Layout(ws: seq<Written>, after: string)
  {
    predicate Well() { (forall k :: 0 <= k < |ws| ==> WrittenWell(ws[k])) && EndsFile(after) }

    function Text(): string { Print(ws) + after }
  }

  // ---------------------------------------------------------------- gaps

  lemma {:induction false} GapsJoin(g: string, h: string)
    requires IsGap(g) && IsGap(h)
    ensures IsGap(g + h)
    decreases |g|
  {
    if g == "" {
      assert g + h == h;
    } else if IsSpace(g[0]) && IsGap(g[1..]) {
      GapsJoin(g[1..], h);
      assert (g + h)[1..] == g[1..] + h;
    } else {
      var n: nat :| n < |g| && CommentTo(g, n) && IsGap(g[n + 1..]);
      GapsJoin(g[n + 1..], h);
      assert (g + h)[n + 1..] == g[n + 1..] + h;
      assert CommentTo(g + h, n);
    }
  }

  lemma SpaceIsGap(c: char)
    requires IsSpace(c)
    ensures IsGap([c])
  {
    assert [c][1..] == "";
  }

  /** Where a comment ends. */
  lemma {:induction false} CommentEnd(s: string) returns (n: nat)
    ensures n <= |s| && SkipComment(s) == s[n..]
    ensures (forall k :: 0 <= k < n ==> s[k] != '\n') && (n < |s| ==> s[n] == '\n')
    decreases |s|
  {
    if s == "" || s[0] == '\n' {
      n := 0;
    } else {
      n := CommentEnd(s[1..]);
      n := n + 1;
    }
  }

  /** A comment with its newline is a gap. */
  lemma CommentIsGap(body: string)
    requires forall k :: 0 <= k < |body| ==> body[k] != '\n'
    ensures IsGap(['#'] + body + ['\n'])
  {
    var g := ['#'] + body + ['\n'];
    var n := |body| + 1;
    assert CommentTo(g, n) && g[n + 1..] == "";
  }

  // ---------------------------------------------------------------- words

  lemma CharJoins(c: Char, more: seq<Char>, rest: string)
    ensures PrintChars([c] + more) + rest == PrintChar(c) + (PrintChars(more) + rest)
  {
    assert ([c] + more)[1..] == more;
    CharsPrint([c] + more, rest);
  }

  /** A backslash at the very end leaves its quote open. */
  lemma LastIsNoBackslash(s: string, quote: char, acc: string)
    requires IsQuote(quote) && ReadQuoted(s, quote, acc).Some?
    ensures |s| == 1 ==> s[0] == quote
  {
  }

  /** chars print s up to its closing quote. */
  ghost predicate Quotes(chars: seq<Char>, quote: char, s: string, rest: string) {
    CharsWell(chars, quote) && s == PrintChars(chars) + ([quote] + rest)
  }

  lemma AddChar(c: Char, more: seq<Char>, quote: char, s: string, rest: string)
    requires Quotes(more, quote, s, rest) && (c.escaped || (c.c != quote && c.c != '\\'))
    ensures Quotes([c] + more, quote, PrintChar(c) + s, rest)
  {
    CharJoins(c, more, [quote] + rest);
  }

  /** What a closed quote holds, as it is written. */
  lemma {:induction false} Unquote(s: string, quote: char, acc: string) returns (chars: seq<Char>)
    requires IsQuote(quote) && ReadQuoted(s, quote, acc).Some?
    ensures Quotes(chars, quote, s, ReadQuoted(s, quote, acc).value.1)
    decreases |s|
  {
    var rest := ReadQuoted(s, quote, acc).value.1;
    if s[0] == '\\' && |s| > 1 {
      var c := Char(s[1], true);
      var more := Unquote(s[2..], quote, acc + [s[1]]);
      AddChar(c, more, quote, s[2..], rest);
      assert s == PrintChar(c) + s[2..];
      chars := [c] + more;
    } else if s[0] == quote {
      chars := [];
    } else {
      var c := Char(s[0], false);
      var more := Unquote(s[1..], quote, acc + [s[0]]);
      LastIsNoBackslash(s, quote, acc);
      AddChar(c, more, quote, s[1..], rest);
      assert s == PrintChar(c) + s[1..];
      chars := [c] + more;
    }
  }

  ghost predicate SpansWell(spans: seq<Span>) { forall k :: 0 <= k < |spans| ==> SpanWell(spans[k]) }

  /** spans print s up to rest, where a word ends. */
  ghost predicate Spans(spans: seq<Span>, s: string, rest: string) {
    SpansWell(spans) && s == PrintSpans(spans) + rest && (rest == "" || Breaks(rest[0]))
  }

  lemma Associate(a: string, b: string, c: string)
    ensures a + (b + c) == (a + b) + c
  {
  }

  lemma SpansCons(span: Span, spans: seq<Span>)
    ensures PrintSpans([span] + spans) == PrintSpan(span) + PrintSpans(spans)
    ensures SpansWell([span] + spans) <==> SpanWell(span) && SpansWell(spans)
  {
    var all := [span] + spans;
    assert all[1..] == spans;
    assert forall k :: 0 <= k < |spans| ==> spans[k] == all[k + 1];
    assert forall k :: 0 < k < |all| ==> all[k] == spans[k - 1];
  }

  lemma AddSpan(span: Span, spans: seq<Span>, s: string, rest: string)
    requires SpanWell(span) && Spans(spans, s, rest)
    ensures Spans([span] + spans, PrintSpan(span) + s, rest)
  {
    SpansCons(span, spans);
    Associate(PrintSpan(span), PrintSpans(spans), rest);
  }

  lemma QuotedText(s: string, chars: seq<Char>, rest: string)
    requires s != "" && s[1..] == PrintChars(chars) + ([s[0]] + rest)
    ensures s == PrintSpan(Quoted(s[0], chars)) + rest
  {
    assert s == [s[0]] + s[1..];
  }

  /** The spans of a word that is read to its end. */
  lemma {:induction false} Unword(s: string, acc: string) returns (spans: seq<Span>)
    requires ReadWord(s, acc).Some?
    ensures Spans(spans, s, ReadWord(s, acc).value.1)
    ensures s != "" && !Breaks(s[0]) ==> spans != [] && (spans[0].Bare? ==> spans[0].text == [s[0]])
    decreases |s|
  {
    if s == "" || Breaks(s[0]) {
      spans := [];
    } else if IsQuote(s[0]) {
      ReadWordQuote(s, acc);
      var q := ReadQuoted(s[1..], s[0], acc).value;
      var chars := Unquote(s[1..], s[0], acc);
      var more := Unword(q.1, q.0);
      var span := Quoted(s[0], chars);
      AddSpan(span, more, q.1, ReadWord(s, acc).value.1);
      QuotedText(s, chars, q.1);
      spans := [span] + more;
    } else {
      var more := Unword(s[1..], acc + [s[0]]);
      AddSpan(Bare([s[0]]), more, s[1..], ReadWord(s, acc).value.1);
      assert s == [s[0]] + s[1..];
      spans := [Bare([s[0]])] + more;
    }
  }

  // ---------------------------------------------------------------- statements

  /** The rest of a statement of which a word has been read. */
  predicate Continues(w: Written) {
    && IsEnd(w.end) && Separates(w.last)
    && forall k :: 0 <= k < |w.pieces| ==> PieceWell(w.pieces[k]) && Separates(w.pieces[k].gap) && w.pieces[k].gap != ""
  }

  /** The layout of the rest of a text; within a statement the first of ws is what is left of it. */
  predicate Rest(ws: seq<Written>, after: string, within: bool) {
    && EndsFile(after)
    && (within ==> ws != [] && Continues(ws[0]))
    && forall k :: (if within then 1 else 0) <= k < |ws| ==> WrittenWell(ws[k])
  }

  /** The gap read so far keeps its distance from a word before it. */
  predicate Apart(gap: string, s: string, within: bool) {
    IsGap(gap) && (within ==> if gap == "" then s == "" || Breaks(s[0]) else IsSpace(gap[0]))
  }

  lemma EndText(gap: string, end: char, w: Written, rest: string)
    requires w == Written([], gap, end)
    ensures gap + ([end] + rest) == PrintStatement(w) + rest
  {
    assert "" + (gap + [end]) == gap + [end];
  }

  lemma AddEnd(gap: string, end: char, s: string, ws: seq<Written>, after: string, within: bool)
    returns (all: seq<Written>)
    requires IsEnd(end) && Apart(gap, [end] + s, within) && Rest(ws, after, false) && s == Print(ws) + after
    ensures Rest(all, after, within) && gap + ([end] + s) == Print(all) + after
  {
    var w := Written([], gap, end);
    all := [w] + ws;
    assert all[1..] == ws;
    assert forall k :: 0 < k < |all| ==> all[k] == ws[k - 1];
    EndText(gap, end, w, s);
    PrintCons(all, after);
  }

  lemma WordJoins(p: Piece, w: Written) returns (w': Written)
    requires PieceWell(p) && Continues(w)
    ensures w' == w.(pieces := [p] + w.pieces)
    ensures WrittenWell(w') && (Separates(p.gap) && p.gap != "" ==> Continues(w'))
  {
    w' := w.(pieces := [p] + w.pieces);
  }

  lemma WordText(p: Piece, w: Written, w': Written, rest: string)
    requires w' == w.(pieces := [p] + w.pieces)
    ensures p.gap + (PrintWord(p) + (PrintStatement(w) + rest)) == PrintStatement(w') + rest
  {
    var word, more, end := PrintWord(p), PrintPieces(w.pieces), w.last + [w.end];
    assert w'.pieces[1..] == w.pieces;
    assert PrintPieces(w'.pieces) == p.gap + (word + more);
    assert p.gap + (word + ((more + end) + rest)) == ((p.gap + (word + more)) + end) + rest;
  }

  lemma AddWord(p: Piece, rest: string, ws: seq<Written>, after: string, within: bool) returns (all: seq<Written>)
    requires PieceWell(p) && (within ==> Separates(p.gap) && p.gap != "")
    requires Rest(ws, after, true) && rest == Print(ws) + after
    ensures Rest(all, after, within) && p.gap + (PrintWord(p) + rest) == Print(all) + after
  {
    var w := WordJoins(p, ws[0]);
    var more := ws[1..];
    all := [w] + more;
    assert all[1..] == more;
    assert forall k :: 0 < k < |all| ==> all[k] == ws[k];
    WordText(p, ws[0], w, Print(more) + after);
    PrintCons(ws, after);
    PrintCons(all, after);
  }

  lemma {:induction false} LayOut(s: string, words: seq<string>, left: nat, out: seq<Mark>, gap: string)
    returns (ws: seq<Written>, after: string)
    requires Lex(s, words, left, out).Ok? && Apart(gap, s, words != [])
    ensures Rest(ws, after, words != []) && gap + s == Print(ws) + after
    decreases |s|, 1
  {
    if s == "" {
      SpaceIsGap('\n');
      GapsJoin(gap, "\n");
      ws, after := [], gap;
    } else if IsSpace(s[0]) {
      ws, after := LaySpace(s, words, left, out, gap);
    } else if s[0] == '#' {
      ws, after := LayComment(s, words, left, out, gap);
    } else if IsEnd(s[0]) {
      ws, after := LayEnd(s, words, left, out, gap);
    } else {
      ws, after := LayWord(s, words, left, out, gap);
    }
  }

  lemma GapGrows(gap: string, c: char, rest: string, s: string, within: bool)
    requires s == [c] + rest && IsSpace(c) && Apart(gap, s, within)
    ensures Apart(gap + [c], rest, within) && gap + [c] + rest == gap + s
  {
    SpaceIsGap(c);
    GapsJoin(gap, [c]);
  }

  lemma {:induction false} LaySpace(s: string, words: seq<string>, left: nat, out: seq<Mark>, gap: string)
    returns (ws: seq<Written>, after: string)
    requires s != "" && IsSpace(s[0]) && Lex(s, words, left, out).Ok? && Apart(gap, s, words != [])
    ensures Rest(ws, after, words != []) && gap + s == Print(ws) + after
    decreases |s|, 0
  {
    var c, rest := s[0], s[1..];
    GapGrows(gap, c, rest, s, words != []);
    ws, after := LayOut(rest, words, left, out, gap + [c]);
  }

  lemma {:induction false} LayEnd(s: string, words: seq<string>, left: nat, out: seq<Mark>, gap: string)
    returns (ws: seq<Written>, after: string)
    requires s != "" && IsEnd(s[0]) && Lex(s, words, left, out).Ok? && Apart(gap, s, words != [])
    ensures Rest(ws, after, words != []) && gap + s == Print(ws) + after
    decreases |s|, 0
  {
    var rest := s[1..];
    ws, after := LayOut(rest, [], 0, out + [Mark(words, s[0], if words == [] then |s| else left)], "");
    assert "" + rest == rest && [s[0]] + rest == s;
    ws := AddEnd(gap, s[0], rest, ws, after, words != []);
  }

  lemma {:induction false} LayWord(s: string, words: seq<string>, left: nat, out: seq<Mark>, gap: string)
    returns (ws: seq<Written>, after: string)
    requires s != "" && !Breaks(s[0]) && s[0] != '#' && Lex(s, words, left, out).Ok? && Apart(gap, s, words != [])
    ensures Rest(ws, after, words != []) && gap + s == Print(ws) + after
    decreases |s|, 0
  {
    var (word, rest) := ReadWord(s, "").value;
    var spans := Unword(s, "");
    ws, after := LayOut(rest, words + [word], if words == [] then |s| else left, out, "");
    assert "" + rest == rest;
    ws := AddWord(Piece(gap, spans), rest, ws, after, words != []);
  }

  lemma CommentStep(s: string, rest: string, words: seq<string>, left: nat, out: seq<Mark>)
    requires s != "" && s[0] == '#' && rest == SkipComment(s[1..]) && (rest != "" ==> rest[0] == '\n')
    ensures rest == "" && Lex(s, words, left, out).Ok? ==> words == []
    ensures rest != "" ==> Lex(s, words, left, out) == Lex(rest[1..], words, left, out)
  {
    assert Lex(s, words, left, out) == Lex(rest, words, left, out);
    if rest != "" {
      assert Lex(rest, words, left, out) == Lex(rest[1..], words, left, out);
    } else {
      assert Lex(rest, words, left, out) == if words == [] then Ok(out) else Err(OpenStatement(left));
    }
  }

  lemma CommentText(s: string, body: string, rest: string, gap: string)
    requires s == ['#'] + (body + rest) && (rest != "" ==> rest[0] == '\n')
    ensures rest == "" ==> gap + s + "\n" == gap + (['#'] + body + ['\n'])
    ensures rest != "" ==> gap + (['#'] + body + ['\n']) + rest[1..] == gap + s
  {
    if rest != "" {
      var more := rest[1..];
      assert rest == ['\n'] + more;
      assert gap + (['#'] + body + ['\n']) + more == gap + (['#'] + (body + (['\n'] + more)));
    }
  }

  lemma {:induction false} LayComment(s: string, words: seq<string>, left: nat, out: seq<Mark>, gap: string)
    returns (ws: seq<Written>, after: string)
    requires s != "" && s[0] == '#' && Lex(s, words, left, out).Ok? && Apart(gap, s, words != [])
    ensures Rest(ws, after, words != []) && gap + s == Print(ws) + after
    decreases |s|, 0
  {
    var n := CommentEnd(s[1..]);
    var body, rest := s[1..][..n], s[1..][n..];
    var comment := ['#'] + body + ['\n'];
    CommentIsGap(body);
    GapsJoin(gap, comment);
    CommentStep(s, rest, words, left, out);
    CommentText(s, body, rest, gap);
    if rest == "" {
      ws, after := [], gap + s;
    } else {
      ws, after := LayOut(rest[1..], words, left, out, gap + comment);
    }
  }

  /**
   * Main result: the lexer accepts a text if and only if it is a layout of some statement list,
   * and then it answers that list's words, ends and lines.
   */
  lemma AcceptedIffLaidOut(text: string)
    ensures Tokens(text).Ok? <==> exists l: Layout :: l.Well() && l.Text() == text
    ensures forall l: Layout :: l.Well() && l.Text() == text ==>
      Tokens(text) == Ok(Lines(text, MarksOf(l.ws, |l.after|)))
  {
    if Tokens(text).Ok? {
      var ws, after := LayOut(text, [], 0, [], "");
      assert "" + text == text;
      assert Layout(ws, after).Well() && Layout(ws, after).Text() == text;
    }
    forall l: Layout | l.Well() && l.Text() == text
      ensures Tokens(text) == Ok(Lines(text, MarksOf(l.ws, |l.after|)))
    {
      TokensInvertPrint(l.ws, l.after);
    }
  }
}
