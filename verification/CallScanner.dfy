/**
 * The call scanner of the logging audit: where a logging call starts, which parenthesis closes
 * it, which lines it spans, and which calls a text holds.
 *
 * FindCallEnd is proved against Close, a reader of the remaining text, and Close against a printer
 * of arguments.
 */
module CallScanner {
  import opened JsText
  import opened Wrappers

  // ---------------------------------------------------------------- line numbers

  /** The offsets at which the lines of s begin. */
  function Starts(s: string): seq<nat> {
    if s == "" then [0] else Starts(s[..|s| - 1]) + if s[|s| - 1] == '\n' then [|s|] else []
  }

  lemma StartsStep(s: string, i: nat)
    requires i < |s|
    ensures Starts(s[..i + 1]) == Starts(s[..i]) + if s[i] == '\n' then [i + 1] else []
  {
    assert s[..i + 1][..i] == s[..i];
  }

  method BuildLineStarts(content: string) returns (starts: seq<nat>)
    ensures starts == Starts(content)
  {
    starts := [0];
    for i := 0 to |content|
      invariant starts == Starts(content[..i])
    {
      StartsStep(content, i);
      if content[i] == '\n' {
        starts := starts + [i + 1];
      }
    }
    assert content[..|content|] == content;
  }

  lemma {:induction false} NewlinesGrow(s: string, i: nat)
    requires i <= |s|
    ensures Newlines(s[..i]) <= Newlines(s)
  {
    if i < |s| {
      NewlinesGrow(s[..|s| - 1], i);
      assert s[..|s| - 1][..i] == s[..i];
    } else {
      assert s[..i] == s;
    }
  }

  /** Line k starts at or before an offset exactly when k newlines come before it. */
  lemma {:induction false} StartsCountNewlines(s: string, index: nat)
    requires index <= |s|
    ensures |Starts(s)| == Newlines(s) + 1
    ensures Newlines(s[..index]) <= Newlines(s)
    ensures forall k :: 0 <= k < |Starts(s)| ==> Starts(s)[k] <= |s|
    ensures forall k :: 0 <= k < |Starts(s)| ==> (Starts(s)[k] <= index <==> k <= Newlines(s[..index]))
  {
    NewlinesGrow(s, index);
    if s != "" {
      var shorter := s[..|s| - 1];
      if index < |s| {
        StartsCountNewlines(shorter, index);
        assert shorter[..index] == s[..index];
      } else {
        StartsCountNewlines(shorter, |shorter|);
        assert s[..index] == s;
      }
    }
  }

  /** The binary search finds one plus the newlines before the offset. */
  method LineNumberAt(content: string, lineStarts: seq<nat>, index: nat) returns (line: nat)
    requires lineStarts == Starts(content) && index <= |content|
    ensures line == 1 + Newlines(content[..index])
    ensures 1 <= line <= |lineStarts|
  {
    StartsCountNewlines(content, index);
    var low, high := 0, |lineStarts| - 1;
    while low <= high
      invariant 0 <= low <= high + 1 <= |lineStarts|
      invariant low <= 1 + Newlines(content[..index])
      invariant high >= Newlines(content[..index])
    {
      var mid := (low + high) / 2;
      if lineStarts[mid] <= index {
        low := mid + 1;
      } else {
        high := mid - 1;
      }
    }
    line := high + 1;
  }

  /** Where the line holding an offset begins: just after the last newline before it. */
  function LineStart(s: string, index: nat): (start: nat)
    requires index <= |s|
    ensures start <= index && (start > 0 ==> s[start - 1] == '\n')
    ensures forall k :: start <= k < index ==> s[k] != '\n'
  {
    if index == 0 || s[index - 1] == '\n' then index else LineStart(s, index - 1)
  }

  lemma {:induction false} LineStartLocal(s: string, shorter: string, index: nat)
    requires index <= |shorter| && shorter <= s
    ensures LineStart(s, index) == LineStart(shorter, index)
  {
    if index > 0 && s[index - 1] != '\n' {
      LineStartLocal(s, shorter, index - 1);
    }
  }

  lemma {:induction false} StartsHoldLineStarts(s: string, index: nat)
    requires index <= |s|
    ensures Newlines(s[..index]) < |Starts(s)|
    ensures Starts(s)[Newlines(s[..index])] == LineStart(s, index)
    decreases |s|, index
  {
    StartsCountNewlines(s, index);
    if index < |s| {
      var shorter := s[..|s| - 1];
      StartsHoldLineStarts(shorter, index);
      LineStartLocal(s, shorter, index);
      assert shorter[..index] == s[..index];
    } else if s != "" {
      var shorter := s[..|s| - 1];
      assert s[..index] == s;
      StartsHoldLineStarts(shorter, |shorter|);
      assert shorter[..|shorter|] == shorter;
      LineStartLocal(s, shorter, |shorter|);
      StartsCountNewlines(shorter, |shorter|);
    }
  }

  // ---------------------------------------------------------------- commented lines

  /** The text before a call on its own line opens with a comment mark. */
  predicate Remarked(before: string) {
    || (|before| >= 2 && before[0] == '/' && (before[1] == '/' || before[1] == '*'))
    || (before != "" && before[0] == '*')
  }

  predicate Commented(s: string, index: nat)
    requires index <= |s|
  {
    var before := Trim(s[LineStart(s, index)..index]);
    "//" <= before || "/*" <= before || "*" <= before
  }

  lemma RemarkedIff(before: string)
    ensures Remarked(before) <==> "//" <= before || "/*" <= before || "*" <= before
  {
    assert "//" <= before ==> before[0] == "//"[0] && before[1] == "//"[1];
    assert "/*" <= before ==> before[0] == "/*"[0] && before[1] == "/*"[1];
    assert "*" <= before ==> before[0] == "*"[0];
  }

  method IsCommentedLineStart(content: string, lineStarts: seq<nat>, index: nat) returns (commented: bool)
    requires lineStarts == Starts(content) && index <= |content|
    ensures commented == Commented(content, index)
  {
    var line := LineNumberAt(content, lineStarts, index);
    StartsHoldLineStarts(content, index);
    var before := Trim(content[lineStarts[line - 1]..index]);
    commented := Remarked(before);
    RemarkedIff(before);
  }

  // ---------------------------------------------------------------- the closing parenthesis

  datatype Mode = Code | InLine | InBlock | InQuote(quote: char, escaped: bool)

  predicate IsQuote(c: char) { c == '\'' || c == '"' || c == '`' }

  /** What is left of a text after the parenthesis that closes the outermost open one, reading
      quotes and comments as the script does. */
  function Close(s: string, depth: int, mode: Mode): (left: Option<nat>)
    ensures left.Some? ==> left.value < |s|
  {
    if s == "" then None else
      match mode
      case InLine => Close(s[1..], depth, if s[0] == '\n' then Code else InLine)
      case InBlock => if |s| > 1 && s[0] == '*' && s[1] == '/' then Close(s[2..], depth, Code)
        else Close(s[1..], depth, InBlock)
      case InQuote(q, escaped) =>
        Close(s[1..], depth, if escaped then InQuote(q, false) else if s[0] == '\\' then InQuote(q, true)
                             else if s[0] == q then Code else mode)
      case Code =>
        if |s| > 1 && s[0] == '/' && s[1] == '/' then Close(s[2..], depth, InLine)
        else if |s| > 1 && s[0] == '/' && s[1] == '*' then Close(s[2..], depth, InBlock)
        else if IsQuote(s[0]) then Close(s[1..], depth, InQuote(s[0], false))
        else if s[0] == '(' then Close(s[1..], depth + 1, Code)
        else if s[0] == ')' then (if depth == 1 then Some(|s| - 1) else Close(s[1..], depth - 1, Code))
        else Close(s[1..], depth, Code)
  }

  function SkipTail(s: string, end: nat): (e: nat)
    requires end <= |s|
    ensures end <= e <= |s|
    ensures forall k :: end <= k < e ==> IsSpace(s[k]) || s[k] == ';'
    ensures e < |s| ==> !IsSpace(s[e]) && s[e] != ';'
    decreases |s| - end
  {
    if end < |s| && (IsSpace(s[end]) || s[end] == ';') then SkipTail(s, end + 1) else end
  }

  function NextNewline(s: string, from: nat): (e: nat)
    requires from <= |s|
    ensures from <= e <= |s| && (e < |s| ==> s[e] == '\n')
    ensures forall k :: from <= k < e ==> s[k] != '\n'
    decreases |s| - from
  {
    if from == |s| || s[from] == '\n' then from else NextNewline(s, from + 1)
  }

  /** Where a call ends: past its closing parenthesis and the spaces and semicolons after it, or,
      when it is never closed, at the end of its line. */
  function CallEnd(s: string, open: nat): nat
    requires open < |s|
  {
    match Close(s[open..], 0, Code)
    case Some(left) => SkipTail(s, |s| - left)
    case None => NextNewline(s, open)
  }

  /** One turn of the loop: the characters to pass, and the state after them. */
  lemma CloseStep(s: string, i: nat, depth: int, mode: Mode)
    requires i < |s|
    ensures Close(s[i..], depth, mode) ==
            var ch := s[i];
            var next := if i + 1 < |s| then s[i + 1] else ' ';
            match mode
            case InLine => Close(s[i + 1..], depth, if ch == '\n' then Code else InLine)
            case InBlock => if ch == '*' && next == '/' then Close(s[i + 2..], depth, Code)
              else Close(s[i + 1..], depth, InBlock)
            case InQuote(q, escaped) =>
              Close(s[i + 1..], depth, if escaped then InQuote(q, false) else if ch == '\\' then InQuote(q, true)
                                       else if ch == q then Code else mode)
            case Code =>
              if ch == '/' && next == '/' then Close(s[i + 2..], depth, InLine)
              else if ch == '/' && next == '*' then Close(s[i + 2..], depth, InBlock)
              else if IsQuote(ch) then Close(s[i + 1..], depth, InQuote(ch, false))
              else if ch == '(' then Close(s[i + 1..], depth + 1, Code)
              else if ch == ')' && depth == 1 then Some(|s| - i - 1)
              else Close(s[i + 1..], if ch == ')' then depth - 1 else depth, Code)
  {
    var here := s[i..];
    assert here[1..] == s[i + 1..];
    if i + 1 < |s| {
      assert here[2..] == s[i + 2..] && here[1] == s[i + 1];
    }
  }

  method FindCallEnd(content: string, openIndex: nat) returns (end: nat)
    requires openIndex < |content| && content[openIndex] == '('
    ensures end == CallEnd(content, openIndex)
    ensures openIndex < end <= |content|
  {
    var depth, i, mode := 0, openIndex, Code;
    ghost var closing := Close(content[openIndex..], 0, Code);
    while i < |content|
      invariant openIndex <= i <= |content|
      invariant closing == Close(content[i..], depth, mode)
    {
      var closed;
      depth, i, mode, closed := Turn(content, i, depth, mode);
      if closed {
        end := PassTail(content, i);
        return;
      }
    }
    end := NextNewline(content, openIndex);
  }

  /** One turn of the loop. */
  method Turn(content: string, i0: nat, depth0: int, mode0: Mode) returns (depth: int, i: nat, mode: Mode, closed: bool)
    requires i0 < |content|
    ensures i0 < i <= |content|
    ensures Close(content[i0..], depth0, mode0) == if closed then Some(|content| - i)
      else Close(content[i..], depth, mode)
  {
    var ch, next := content[i0], if i0 + 1 < |content| then content[i0 + 1] else ' ';
    CloseStep(content, i0, depth0, mode0);
    depth, i, mode, closed := depth0, i0 + 1, mode0, false;
    match mode {
      case InLine =>
        if ch == '\n' {
          mode := Code;
        }
      case InBlock =>
        if ch == '*' && next == '/' {
          mode, i := Code, i + 1;
        }
      case InQuote(q, escaped) =>
        if escaped {
          mode := InQuote(q, false);
        } else if ch == '\\' {
          mode := InQuote(q, true);
        } else if ch == q {
          mode := Code;
        }
      case Code =>
        if ch == '/' && next == '/' {
          mode, i := InLine, i + 1;
        } else if ch == '/' && next == '*' {
          mode, i := InBlock, i + 1;
        } else if IsQuote(ch) {
          mode := InQuote(ch, false);
        } else if ch == '(' {
          depth := depth + 1;
        } else if ch == ')' {
          depth := depth - 1;
          closed := depth == 0;
        }
    }
  }

  method PassTail(content: string, from: nat) returns (end: nat)
    requires from <= |content|
    ensures end == SkipTail(content, from)
  {
    end := from;
    while end < |content| && (IsSpace(content[end]) || content[end] == ';')
      invariant from <= end <= |content| && SkipTail(content, from) == SkipTail(content, end)
    {
      end := end + 1;
    }
  }

  // ---------------------------------------------------------------- what a closed call is

  /** A piece of JavaScript as far as the scanner tells pieces apart. */
  datatype Piece =
    | Plain(c: char)
    | Literal(quote: char, body: string)
    | Remark(text: string)
    | Note(text: string)
    | Open
    | Shut

  function Text(p: Piece): string {
    match p
    case Plain(c) => [c]
    case Literal(q, body) => [q] + (body + [q])
    case Remark(text) => ['/', '/'] + (text + ['\n'])
    case Note(text) => ['/', '*'] + (text + ['*', '/'])
    case Open => ['(']
    case Shut => [')']
  }

  function Print(ps: seq<Piece>): string {
    if ps == [] then "" else Text(ps[0]) + Print(ps[1..])
  }

  /** Inside a quote: escaped characters, and anything but the quote itself. */
  predicate IsBody(q: char, body: string) {
    body == "" || if body[0] == '\\' then |body| > 1 && IsBody(q, body[2..]) else body[0] != q && IsBody(q, body[1..])
  }

  predicate IsPiece(p: Piece) {
    match p
    case Plain(c) => c != '"' && c != '\'' && c != '`' && c != '(' && c != ')'
    case Literal(q, body) => (q == '"' || q == '\'' || q == '`') && IsBody(q, body)
    case Remark(text) => forall i :: 0 <= i < |text| ==> text[i] != '\n'
    case Note(text) => forall i :: 0 <= i < |text| - 1 ==> !(text[i] == '*' && text[i + 1] == '/')
    case _ => true
  }

  /** The pieces of a text that `rest` follows: a lone slash opens no comment. */
  predicate ArePieces(ps: seq<Piece>, rest: string) {
    ps == [] || (&& IsPiece(ps[0])
                 && (ps[0] == Plain('/') ==>
                       var after := Print(ps[1..]) + rest;
                       after == "" || (after[0] != '/' && after[0] != '*'))
                 && ArePieces(ps[1..], rest))
  }

  function DepthAfter(p: Piece, depth: int): int {
    if p == Open then depth + 1 else if p == Shut then depth - 1 else depth
  }

  /** Parentheses outside quotes and comments balance, and never close what was open before. */
  predicate Balanced(ps: seq<Piece>, depth: int) {
    depth >= 1 && if ps == [] then depth == 1 else Balanced(ps[1..], DepthAfter(ps[0], depth))
  }

  lemma {:induction false} PassLiteral(q: char, body: string, rest: string, depth: int)
    requires IsQuote(q) && IsBody(q, body)
    ensures Close(body + ([q] + rest), depth, InQuote(q, false)) == Close(rest, depth, Code)
  {
    var s := body + ([q] + rest);
    if body == "" {
      assert s == [q] + rest && s[1..] == rest;
    } else if body[0] == '\\' {
      assert s[1..][1..] == body[2..] + ([q] + rest);
      PassLiteral(q, body[2..], rest, depth);
    } else {
      assert s[1..] == body[1..] + ([q] + rest);
      PassLiteral(q, body[1..], rest, depth);
    }
  }

  lemma {:induction false} PassRemark(text: string, rest: string, depth: int)
    requires forall i :: 0 <= i < |text| ==> text[i] != '\n'
    ensures Close(text + (['\n'] + rest), depth, InLine) == Close(rest, depth, Code)
  {
    var s := text + (['\n'] + rest);
    if text == "" {
      assert s == ['\n'] + rest && s[1..] == rest;
    } else {
      assert s[1..] == text[1..] + (['\n'] + rest);
      PassRemark(text[1..], rest, depth);
    }
  }

  lemma {:induction false} PassNote(text: string, rest: string, depth: int)
    requires IsPiece(Note(text))
    ensures Close(text + (['*', '/'] + rest), depth, InBlock) == Close(rest, depth, Code)
  {
    var s := text + (['*', '/'] + rest);
    if text == "" {
      assert s == ['*', '/'] + rest && s[2..] == rest;
    } else {
      assert s[1] == if |text| > 1 then text[1] else '*';
      assert s[1..] == text[1..] + (['*', '/'] + rest);
      PassNote(text[1..], rest, depth);
    }
  }

  lemma PassChar(c: char, rest: string, depth: int)
    requires !IsQuote(c) && (c == ')' ==> depth > 1)
    requires c == '/' ==> rest == "" || (rest[0] != '/' && rest[0] != '*')
    ensures Close([c] + rest, depth, Code)
         == Close(rest, if c == '(' then depth + 1 else if c == ')' then depth - 1 else depth, Code)
  {
    var s := [c] + rest;
    assert s[1..] == rest;
  }

  lemma Enter(mark: string, rest: string, depth: int)
    requires mark != "" && (IsQuote(mark[0]) ==> |mark| == 1)
    requires !IsQuote(mark[0]) ==> |mark| == 2 && mark[0] == '/' && (mark[1] == '/' || mark[1] == '*')
    ensures Close(mark + rest, depth, Code) ==
            Close(rest, depth,
                  if IsQuote(mark[0]) then InQuote(mark[0], false) else if mark[1] == '/' then InLine else InBlock)
  {
    var s := mark + rest;
    assert s[|mark|..] == rest;
  }

  lemma Assoc(a: string, b: string, c: string, d: string)
    ensures (a + (b + c)) + d == a + (b + (c + d))
  {
  }

  lemma PassWholeLiteral(q: char, body: string, rest: string, depth: int)
    requires IsPiece(Literal(q, body))
    ensures Close(Text(Literal(q, body)) + rest, depth, Code) == Close(rest, depth, Code)
  {
    var inner := body + ([q] + rest);
    PassLiteral(q, body, rest, depth);
    Enter([q], inner, depth);
    Assoc([q], body, [q], rest);
  }

  lemma PassWholeRemark(text: string, rest: string, depth: int)
    requires IsPiece(Remark(text))
    ensures Close(Text(Remark(text)) + rest, depth, Code) == Close(rest, depth, Code)
  {
    var inner := text + (['\n'] + rest);
    PassRemark(text, rest, depth);
    Enter(['/', '/'], inner, depth);
    Assoc(['/', '/'], text, ['\n'], rest);
  }

  lemma PassWholeNote(text: string, rest: string, depth: int)
    requires IsPiece(Note(text))
    ensures Close(Text(Note(text)) + rest, depth, Code) == Close(rest, depth, Code)
  {
    var inner := text + (['*', '/'] + rest);
    PassNote(text, rest, depth);
    Enter(['/', '*'], inner, depth);
    Assoc(['/', '*'], text, ['*', '/'], rest);
  }

  lemma PassPiece(p: Piece, rest: string, text: string, depth: int)
    requires IsPiece(p) && (p == Shut ==> depth > 1) && text == Text(p) + rest
    requires p == Plain('/') ==> rest == "" || (rest[0] != '/' && rest[0] != '*')
    ensures Close(text, depth, Code) == Close(rest, DepthAfter(p, depth), Code)
  {
    match p {
      case Literal(q, body) => PassWholeLiteral(q, body, rest, depth);
      case Remark(text) => PassWholeRemark(text, rest, depth);
      case Note(text) => PassWholeNote(text, rest, depth);
      case Plain(c) => PassChar(c, rest, depth);
      case Open => PassChar('(', rest, depth);
      case Shut => PassChar(')', rest, depth);
    }
  }

  lemma PrintCons(ps: seq<Piece>, rest: string)
    requires ps != []
    ensures Print(ps) + rest == Text(ps[0]) + (Print(ps[1..]) + rest)
  {
  }

  lemma {:induction false} PassPieces(ps: seq<Piece>, rest: string, text: string, depth: int)
    requires ArePieces(ps, rest) && Balanced(ps, depth) && text == Print(ps) + rest
    ensures Close(text, depth, Code) == Close(rest, 1, Code)
  {
    if ps == [] {
      assert text == rest;
    } else {
      var after := Print(ps[1..]) + rest;
      PrintCons(ps, rest);
      PassPiece(ps[0], after, text, depth);
      PassPieces(ps[1..], rest, after, DepthAfter(ps[0], depth));
    }
  }

  lemma CloseNow(rest: string)
    ensures Close([')'] + rest, 1, Code) == Some(|rest|)
  {
    var s := [')'] + rest;
    assert s[0] == ')' && |s| == |rest| + 1;
  }

  /** A call from its opening parenthesis, with what follows it. */
  function CallText(arguments: seq<Piece>, rest: string): (s: string)
    ensures |s| == |Print(arguments)| + 2 + |rest|
  {
    ['('] + (Print(arguments) + ([')'] + rest))
  }

  lemma CloseCall(arguments: seq<Piece>, rest: string, call: string)
    requires ArePieces(arguments, [')'] + rest) && Balanced(arguments, 1) && call == CallText(arguments, rest)
    ensures |rest| < |call| && Close(call, 0, Code) == Some(|rest|)
  {
    var inner := Print(arguments) + ([')'] + rest);
    PassChar('(', inner, 0);
    PassPieces(arguments, [')'] + rest, inner, 1);
    CloseNow(rest);
  }

  lemma CallEndFrom(before: string, call: string, text: string, left: nat)
    requires left < |call| && text == before + call && Close(call, 0, Code) == Some(left)
    ensures |before| < |text| && CallEnd(text, |before|) == SkipTail(text, |before| + |call| - left)
  {
    assert text[|before|..] == call;
  }

  /** Main result: whatever strings, comments and nested parentheses a call's arguments hold, the
      call ends at its own closing parenthesis, where `rest` begins, and the spaces and semicolons
      after that. */
  lemma CallEndsAtItsParenthesis(before: string, arguments: seq<Piece>, rest: string, call: string, text: string)
    requires ArePieces(arguments, [')'] + rest) && Balanced(arguments, 1) && call == CallText(arguments, rest)
    requires text == before + call
    ensures CallEnd(text, |before|) == SkipTail(text, |before| + |call| - |rest|)
  {
    CloseCall(arguments, rest, call);
    CallEndFrom(before, call, text, |rest|);
  }

  // ---------------------------------------------------------------- a call that is never closed

  /** The depth stays at least one to the end of the pieces. */
  predicate StaysOpen(ps: seq<Piece>, depth: int) {
    depth >= 1 && (ps == [] || StaysOpen(ps[1..], DepthAfter(ps[0], depth)))
  }

  lemma {:induction false} NeverCloses(ps: seq<Piece>, text: string, depth: int)
    requires ArePieces(ps, "") && StaysOpen(ps, depth) && text == Print(ps)
    ensures Close(text, depth, Code) == None
  {
    if ps != [] {
      var after := Print(ps[1..]) + "";
      PrintCons(ps, "");
      assert text == Print(ps) + "" && after == Print(ps[1..]);
      PassPiece(ps[0], after, text, depth);
      NeverCloses(ps[1..], after, DepthAfter(ps[0], depth));
    }
  }

  /** Main result: a call whose parenthesis no later one closes, strings and comments aside, ends with
      its line: at the first newline from its parenthesis on, or at the end of the text. */
  lemma UnclosedCallEndsWithItsLine(before: string, arguments: seq<Piece>, call: string, text: string)
    requires ArePieces(arguments, "") && StaysOpen(arguments, 1) && call == "(" + Print(arguments)
    requires text == before + call
    ensures |before| < CallEnd(text, |before|) <= |text|
    ensures forall k :: |before| <= k < CallEnd(text, |before|) ==> text[k] != '\n'
    ensures CallEnd(text, |before|) < |text| ==> text[CallEnd(text, |before|)] == '\n'
  {
    var inner := Print(arguments);
    PassChar('(', inner, 0);
    NeverCloses(arguments, inner, 1);
    assert call == ['('] + inner && text[|before|..] == call && text[|before|] == call[0];
  }
}
