/**
 * Extracting the logging calls of a text: every call that is not on a commented line is found
 * once, with its lines, and the spans of the calls found never overlap.
 *
 * The walk over a text is proved for any search function; the search for a pattern is then one.
 */
module CallExtraction {
  import opened JsText
  import opened Wrappers
  import opened CallScanner

  // ---------------------------------------------------------------- the patterns

  predicate IsWordChar(c: char) { 'a' <= c <= 'z' || 'A' <= c <= 'Z' || IsDigit(c) || c == '_' }

  predicate IsName(s: string) {
    s != "" && IsWordChar(s[0]) && forall k :: 0 <= k < |s| ==> IsWordChar(s[k]) || s[k] == '.'
  }

  /** A pattern: the names its match can open with, in order. */
  type Pattern = names: seq<string> | forall k :: 0 <= k < |names| ==> IsName(names[k])

  /** The patterns of the audit. */
  const LOG_CALL: Pattern :=
    ["console.log", "console.warn", "console.error", "console.info", "console.debug",
     "logger.log", "logger.warn", "logger.error", "logger.info", "logger.debug"]
  const STATS_CALL: Pattern := ["InfluxConnector.statsLog", "statsLog"]
  const RECORD_STATS_CALL: Pattern := ["recordStatsEvent"]

  function PassSpaces(s: string, i: nat): (e: nat)
    requires i <= |s|
    ensures i <= e <= |s| && (forall k :: i <= k < e ==> IsSpace(s[k]))
    decreases |s| - i
  {
    if i < |s| && IsSpace(s[i]) then PassSpaces(s, i + 1) else i
  }

  /** The opening parenthesis of a call of one of the names at i, when there is one there. */
  function CallOf(names: Pattern, s: string, i: nat): (open: Option<nat>)
    ensures open.Some? ==> i <= open.value < |s| && s[open.value] == '('
  {
    if names == [] then None else
      var n := |names[0]|;
      if i + n <= |s| && s[i..i + n] == names[0] && PassSpaces(s, i + n) < |s| && s[PassSpaces(s, i + n)] == '('
      then Some(PassSpaces(s, i + n))
      else CallOf(names[1..], s, i)
  }

  /** A match of a pattern at i: a call of one of its names that starts a word. */
  function MatchAt(p: Pattern, s: string, i: nat): (open: Option<nat>)
    ensures open.Some? ==> i <= open.value < |s| && s[open.value] == '('
  {
    if i >= |s| || (i > 0 && IsWordChar(s[i - 1])) then None else CallOf(p, s, i)
  }

  /** The first match at or after an offset. */
  function Exec(p: Pattern, s: string, from: nat): (i: Option<nat>)
    ensures i.Some? ==> from <= i.value < |s| && MatchAt(p, s, i.value).Some?
    ensures i.Some? ==> forall k :: from <= k < i.value ==> MatchAt(p, s, k).None?
    ensures i.None? ==> forall k :: from <= k ==> MatchAt(p, s, k).None?
    decreases |s| - from
  {
    if from >= |s| then None else if MatchAt(p, s, from).Some? then Some(from) else Exec(p, s, from + 1)
  }

  /** Between the start of a match and its parenthesis there is a name, then spaces. */
  lemma {:induction false} CallIsNameAndSpaces(names: Pattern, s: string, i: nat) returns (n: nat)
    requires CallOf(names, s, i).Some?
    ensures 0 < n && i + n <= CallOf(names, s, i).value
    ensures IsWordChar(s[i])
    ensures forall k :: i <= k < i + n ==> IsWordChar(s[k]) || s[k] == '.'
    ensures forall k :: i + n <= k < CallOf(names, s, i).value ==> IsSpace(s[k])
  {
    n := |names[0]|;
    if i + n <= |s| && s[i..i + n] == names[0] && PassSpaces(s, i + n) < |s| && s[PassSpaces(s, i + n)] == '(' {
      assert forall k :: i <= k < i + n ==> s[k] == names[0][k - i];
    } else {
      n := CallIsNameAndSpaces(names[1..], s, i);
    }
  }

  /** The first opening parenthesis from the start of a match is the match's own. */
  lemma OpenIsFirst(p: Pattern, s: string, i: nat)
    requires MatchAt(p, s, i).Some?
    ensures forall k :: i <= k < MatchAt(p, s, i).value ==> s[k] != '('
    ensures IsWordChar(s[i])
  {
    var n := CallIsNameAndSpaces(p, s, i);
  }

  // ---------------------------------------------------------------- walking over a text

  datatype Span = Span(start: nat, end: nat)

  /** A match, its parenthesis, the end of the call, and whether its line is commented. */
  datatype Hit = Hit(start: nat, open: nat, end: nat, commented: bool)

  type Finder = nat -> Option<Hit>

  /** Hits lie at or after the offset asked for, inside a text of `size` characters. */
  ghost predicate Sound(next: Finder, size: nat) {
    forall from: nat :: next(from).Some? ==>
      from <= next(from).value.start <= next(from).value.open < next(from).value.end <= size
  }

  /** The spans of the calls that are not commented: the search goes on after the parenthesis of
      a commented one, after the end of any other. */
  function Walk(next: Finder, from: nat, size: nat): seq<Span>
    requires Sound(next, size) && from <= size
    decreases size - from
  {
    match next(from)
    case None => []
    case Some(h) => if h.commented then Walk(next, h.open + 1, size)
      else [Span(h.start, h.end)] + Walk(next, h.end, size)
  }

  /** The spans lie inside the text, one after the other, none empty. */
  predicate Ascend(spans: seq<Span>, from: nat, size: nat) {
    && (forall k :: 0 <= k < |spans| ==> from <= spans[k].start < spans[k].end <= size)
    && (forall j, k :: 0 <= j < k < |spans| ==> spans[j].end <= spans[k].start)
  }

  lemma {:induction false} WalkAscends(next: Finder, from: nat, size: nat)
    requires Sound(next, size) && from <= size
    ensures Ascend(Walk(next, from, size), from, size)
    decreases size - from
  {
    if next(from).Some? {
      var h := next(from).value;
      WalkAscends(next, if h.commented then h.open + 1 else h.end, size);
    }
  }

  ghost predicate Found(next: Finder, span: Span) {
    exists k: nat :: next(k).Some? && !next(k).value.commented && span == Span(next(k).value.start, next(k).value.end)
  }

  lemma {:induction false} WalkFindsHits(next: Finder, from: nat, size: nat, span: Span)
    requires Sound(next, size) && from <= size && span in Walk(next, from, size)
    ensures Found(next, span)
    decreases size - from
  {
    var h := next(from).value;
    if h.commented || span != Span(h.start, h.end) {
      WalkFindsHits(next, if h.commented then h.open + 1 else h.end, size, span);
    }
  }

  ghost predicate Covered(spans: seq<Span>, i: nat) {
    exists span :: span in spans && span.start <= i < span.end
  }

  /** An offset no search passes over is covered: none from before it comes out after it, or with
      it in the head of a commented match. */
  ghost predicate NeverPassed(next: Finder, i: nat) {
    forall from: nat {:trigger next(from)} :: from <= i ==>
      next(from).Some? && next(from).value.start <= i && (next(from).value.commented ==> next(from).value.open < i)
  }

  lemma {:induction false} WalkCovers(next: Finder, from: nat, size: nat, i: nat)
    requires Sound(next, size) && from <= size && from <= i && NeverPassed(next, i)
    ensures Covered(Walk(next, from, size), i)
    decreases size - from
  {
    var h := next(from).value;
    var spans := Walk(next, from, size);
    if h.commented {
      WalkCovers(next, h.open + 1, size, i);
    } else if i < h.end {
      assert spans[0] == Span(h.start, h.end);
    } else {
      WalkCovers(next, h.end, size, i);
      var rest := Walk(next, h.end, size);
      var span :| span in rest && span.start <= i < span.end;
      assert span in spans;
    }
  }

  // ---------------------------------------------------------------- the calls of a text

  lemma CallEndIsPast(s: string, open: nat)
    requires open < |s| && s[open] == '('
    ensures open < CallEnd(s, open) <= |s|
  {
  }

  function NextHit(p: Pattern, s: string, from: nat): (h: Option<Hit>)
    ensures h.None? <==> Exec(p, s, from).None?
    ensures h.Some? ==>
              var i := Exec(p, s, from).value;
              var open := MatchAt(p, s, i).value;
              h.value == Hit(i, open, CallEnd(s, open), Commented(s, i)) && open < h.value.end <= |s|
  {
    match Exec(p, s, from)
    case None => None
    case Some(i) =>
      var open := MatchAt(p, s, i).value;
      CallEndIsPast(s, open);
      Some(Hit(i, open, CallEnd(s, open), Commented(s, i)))
  }

  /** What a finder must answer to search a text for a pattern. */
  ghost predicate Finds(next: Finder, p: Pattern, s: string) {
    && Sound(next, |s|)
    && forall from: nat {:trigger NextHit(p, s, from)} :: next(from) == NextHit(p, s, from)
  }

  function Finding(p: Pattern, s: string): (next: Finder)
    ensures Finds(next, p, s)
  {
    (from: nat) => NextHit(p, s, from)
  }

  function Spans(p: Pattern, s: string): seq<Span> { Walk(Finding(p, s), 0, |s|) }

  datatype Call = Call(text: string, line: nat, endLine: nat)

  function CallOn(s: string, span: Span): Call
    requires span.start < span.end <= |s|
  {
    Call(s[span.start..span.end], 1 + Newlines(s[..span.start]), 1 + Newlines(s[..span.end - 1]))
  }

  // ---------------------------------------------------------------- the loop

  method ExtractCalls(content: string, p: Pattern) returns (calls: seq<Call>)
    ensures Ascend(Spans(p, content), 0, |content|)
    ensures |calls| == |Spans(p, content)|
    ensures forall k :: 0 <= k < |calls| ==> calls[k] == CallOn(content, Spans(p, content)[k])
  {
    calls := CallsFound(content, p, Finding(p, content));
  }

  /** The calls of a pattern's spans, one each, in order. */
  predicate AreCalls(calls: seq<Call>, content: string, spans: seq<Span>) {
    && |calls| == |spans|
    && forall k :: 0 <= k < |spans| ==>
         spans[k].start < spans[k].end <= |content| && calls[k] == CallOn(content, spans[k])
  }

  /** The three extractions an audit of a file makes. */
  method ExtractAll(content: string) returns (logs: seq<Call>, stats: seq<Call>, records: seq<Call>)
    ensures AreCalls(logs, content, Spans(LOG_CALL, content))
    ensures AreCalls(stats, content, Spans(STATS_CALL, content))
    ensures AreCalls(records, content, Spans(RECORD_STATS_CALL, content))
  {
    logs := ExtractCalls(content, LOG_CALL);
    stats := ExtractCalls(content, STATS_CALL);
    records := ExtractCalls(content, RECORD_STATS_CALL);
  }

  lemma WalkStep(next: Finder, from: nat, size: nat)
    requires Sound(next, size) && from <= size
    ensures match next(from)
            case None => Walk(next, from, size) == []
            case Some(h) =>
              if h.commented then Walk(next, from, size) == Walk(next, h.open + 1, size)
              else
                && Walk(next, from, size) != []
                && Walk(next, from, size)[0] == Span(h.start, h.end)
                && Walk(next, from, size)[1..] == Walk(next, h.end, size)
  {
  }

  method CallsFound(content: string, p: Pattern, ghost next: Finder) returns (calls: seq<Call>)
    requires Finds(next, p, content)
    ensures var spans := Walk(next, 0, |content|);
      && Ascend(spans, 0, |content|) && |calls| == |spans|
      && forall k :: 0 <= k < |calls| ==> calls[k] == CallOn(content, spans[k])
  {
    calls := [];
    var lineStarts := BuildLineStarts(content);
    var lastIndex := 0;
    ghost var spans := Walk(next, 0, |content|);
    WalkAscends(next, 0, |content|);
    while true
      invariant lastIndex <= |content| && |calls| <= |spans|
      invariant spans[|calls|..] == Walk(next, lastIndex, |content|)
      invariant forall k :: 0 <= k < |calls| ==> calls[k] == CallOn(content, spans[k])
      decreases |content| - lastIndex
    {
      WalkStep(next, lastIndex, |content|);
      var found: bool, call: Option<Call>;
      found, call, lastIndex := Turn(content, lineStarts, p, lastIndex, next);
      if !found {
        break;
      }
      if call.Some? {
        assert spans[|calls|..][0] == spans[|calls|];
        assert spans[|calls|..][1..] == spans[|calls| + 1..];
        calls := calls + [call.value];
      }
    }
  }

  /** One turn: the next call, unless it is on a commented line, and where to go on. */
  method Turn(content: string, lineStarts: seq<nat>, p: Pattern, from: nat, ghost next: Finder)
    returns (found: bool, call: Option<Call>, lastIndex: nat)
    requires lineStarts == Starts(content) && Finds(next, p, content)
    ensures found == next(from).Some?
    ensures found ==>
              var h := next(from).value;
              && call == (if h.commented then None else Some(CallOn(content, Span(h.start, h.end))))
              && lastIndex == (if h.commented then h.open + 1 else h.end)
  {
    ghost var hit := NextHit(p, content, from);
    var at := Exec(p, content, from);
    if at.None? {
      return false, None, from;
    }
    var index := at.value;
    OpenIsFirst(p, content, index);
    lastIndex := MatchAt(p, content, index).value + 1;
    var commented := IsCommentedLineStart(content, lineStarts, index);
    if commented {
      return true, None, lastIndex;
    }
    var endIndex: nat;
    call, endIndex := ReadCall(content, lineStarts, index, lastIndex - 1);
    lastIndex := if lastIndex < endIndex then endIndex else lastIndex;
    found := true;
  }

  method ReadCall(content: string, lineStarts: seq<nat>, index: nat, ghost open: nat)
    returns (call: Option<Call>, endIndex: nat)
    requires lineStarts == Starts(content) && index <= open < |content| && content[open] == '('
    requires forall k :: index <= k < open ==> content[k] != '('
    ensures endIndex == CallEnd(content, open) && open < endIndex <= |content|
    ensures call == Some(CallOn(content, Span(index, endIndex)))
  {
    var openIndex := IndexOf(content, '(', index);
    endIndex := FindCallEnd(content, openIndex);
    call := Describe(content, lineStarts, index, endIndex);
  }

  method Describe(content: string, lineStarts: seq<nat>, index: nat, endIndex: nat) returns (call: Option<Call>)
    requires lineStarts == Starts(content) && index < endIndex <= |content|
    ensures call == Some(CallOn(content, Span(index, endIndex)))
  {
    var line := LineNumberAt(content, lineStarts, index);
    var endLine := LineNumberAt(content, lineStarts, if index < endIndex - 1 then endIndex - 1 else index);
    call := Some(Call(content[index..endIndex], line, endLine));
  }

  method IndexOf(s: string, c: char, from: nat) returns (i: nat)
    requires from <= |s|
    ensures from <= i <= |s| && (i < |s| ==> s[i] == c) && forall k :: from <= k < i ==> s[k] != c
  {
    i := from;
    while i < |s| && s[i] != c
      invariant from <= i <= |s| && forall k :: from <= k < i ==> s[k] != c
    {
      i := i + 1;
    }
  }

  // ---------------------------------------------------------------- what is found

  /** Every span found is that of a call on a line that is not commented. */
  lemma SpansAreCalls(p: Pattern, s: string, span: Span)
    requires span in Spans(p, s)
    ensures var open := MatchAt(p, s, span.start);
      open.Some? && !Commented(s, span.start) && span.end == CallEnd(s, open.value)
  {
    var next := Finding(p, s);
    WalkFindsHits(next, 0, |s|, span);
    var k: nat :| next(k).Some? && !next(k).value.commented && span == Span(next(k).value.start, next(k).value.end);
    assert next(k) == NextHit(p, s, k);
  }

  lemma {:induction false} TrimStartGrows(t: string, u: string)
    requires t <= u && TrimStart(t) != ""
    ensures TrimStart(t) <= TrimStart(u)
  {
    if IsSpace(t[0]) {
      TrimStartGrows(t[1..], u[1..]);
    }
  }

  lemma {:induction false} TrimEndEnds(s: string)
    ensures TrimEnd(s) <= s
    ensures TrimEnd(s) != "" ==> !IsSpace(TrimEnd(s)[|TrimEnd(s)| - 1])
  {
    if s != "" && IsSpace(s[|s| - 1]) {
      TrimEndEnds(s[..|s| - 1]);
    }
  }

  lemma RemarkedGrows(b: string, x: string)
    requires Remarked(Trim(b))
    ensures Remarked(Trim(b + x))
  {
    var t := TrimEnd(b);
    TrimEndEnds(b);
    assert TrimStart("") == "";
    assert t != "";
    TrimEndKeeps(b + x, t);
    TrimStartGrows(t, TrimEnd(b + x));
    assert Trim(b) <= Trim(b + x);
  }

  lemma {:induction false} SameLine(s: string, j: nat, i: nat)
    requires j <= i <= |s| && forall k :: j <= k < i ==> s[k] != '\n'
    ensures LineStart(s, i) == LineStart(s, j)
    decreases i
  {
    if j < i {
      SameLine(s, j, i - 1);
    }
  }

  lemma SliceSplit(s: string, a: nat, b: nat, c: nat)
    requires a <= b <= c <= |s|
    ensures s[a..c] == s[a..b] + s[b..c]
  {
  }

  /** Before a match's parenthesis, no other match starts after the name. */
  lemma InnerMatchIsInName(p: Pattern, s: string, j: nat, i: nat)
    requires MatchAt(p, s, j).Some? && MatchAt(p, s, i).Some? && j <= i <= MatchAt(p, s, j).value
    ensures forall k :: j <= k < i ==> s[k] != '\n'
  {
    var n := CallIsNameAndSpaces(p, s, j);
    OpenIsFirst(p, s, i);
  }

  /** A match inside the head of a commented one is on the same line, so commented too. */
  lemma InnerMatchIsCommented(p: Pattern, s: string, j: nat, i: nat)
    requires MatchAt(p, s, j).Some? && MatchAt(p, s, i).Some? && j <= i <= MatchAt(p, s, j).value
    requires Commented(s, j)
    ensures Commented(s, i)
  {
    InnerMatchIsInName(p, s, j, i);
    SameLine(s, j, i);
    var start := LineStart(s, j);
    SliceSplit(s, start, j, i);
    RemarkedGrows(s[start..j], s[j..i]);
  }

  lemma HitsDoNotPass(p: Pattern, s: string, from: nat, i: nat)
    requires MatchAt(p, s, i).Some? && !Commented(s, i) && from <= i
    ensures var h := NextHit(p, s, from);
      h.Some? && h.value.start <= i && (h.value.commented ==> h.value.open < i)
  {
    var j := Exec(p, s, from).value;
    if Commented(s, j) && i <= MatchAt(p, s, j).value {
      InnerMatchIsCommented(p, s, j, i);
    }
  }

  /** Main result: every call that is not on a commented line is found, by its own span or inside
      an earlier one; with SpansAreCalls and the order of the spans this fixes them. */
  lemma NoCallIsMissed(p: Pattern, s: string, i: nat)
    requires MatchAt(p, s, i).Some? && !Commented(s, i)
    ensures Covered(Spans(p, s), i)
  {
    var next := Finding(p, s);
    forall from: nat | from <= i
      ensures next(from).Some? && next(from).value.start <= i &&
        (next(from).value.commented ==> next(from).value.open < i)
    {
      HitsDoNotPass(p, s, from, i);
      assert next(from) == NextHit(p, s, from);
    }
    WalkCovers(next, 0, |s|, i);
  }

  lemma {:induction false} NewlinesSplit(a: string, b: string)
    ensures Newlines(a + b) == Newlines(a) + Newlines(b)
  {
    if b == "" {
      assert a + b == a;
    } else {
      assert (a + b)[..|a + b| - 1] == a + b[..|b| - 1];
      NewlinesSplit(a, b[..|b| - 1]);
    }
  }

  /** The lines reported for a call are in order, and the call starts on the first of them. */
  lemma LinesAreOrdered(s: string, span: Span)
    requires span.start < span.end <= |s|
    ensures 1 <= CallOn(s, span).line <= CallOn(s, span).endLine
    ensures CallOn(s, span).endLine <= 1 + Newlines(s)
    ensures CallOn(s, span).endLine - CallOn(s, span).line == Newlines(s[span.start..span.end - 1])
  {
    var last := span.end - 1;
    NewlinesGrow(s, last);
    NewlinesSplit(s[..span.start], s[span.start..last]);
    SliceSplit(s, 0, span.start, last);
    assert s[0..last] == s[..last] && s[0..span.start] == s[..span.start];
  }

  // ---------------------------------------------------------------- what the three patterns match

  /** At i stands this name, then white space, then an opening parenthesis at `open`. */
  predicate CallsName(s: string, i: nat, name: string, open: nat) {
    && i + |name| <= open < |s| && s[i..i + |name|] == name
    && (forall k :: i + |name| <= k < open ==> IsSpace(s[k])) && s[open] == '('
  }

  /** No letter, digit or underscore comes before i. */
  predicate StartsWord(s: string, i: nat)
    requires i <= |s|
  {
    i == 0 || !('a' <= s[i - 1] <= 'z' || 'A' <= s[i - 1] <= 'Z' || '0' <= s[i - 1] <= '9' || s[i - 1] == '_')
  }

  lemma {:induction false} PassSpacesIs(s: string, i: nat, e: nat)
    requires i <= e < |s| && !IsSpace(s[e]) && forall k :: i <= k < e ==> IsSpace(s[k])
    ensures PassSpaces(s, i) == e
    decreases e - i
  {
    if i < e { PassSpacesIs(s, i + 1, e); }
  }

  lemma PassSpacesStops(s: string, i: nat)
    requires i <= |s|
    ensures PassSpaces(s, i) < |s| ==> !IsSpace(s[PassSpaces(s, i)])
    decreases |s| - i
  {
    if i < |s| && IsSpace(s[i]) { PassSpacesStops(s, i + 1); }
  }

  lemma OneName(names: Pattern, s: string, i: nat, open: nat)
    requires names != []
    ensures CallsName(s, i, names[0], open) <==>
            var n := |names[0]|;
            i + n <= |s| && s[i..i + n] == names[0] && PassSpaces(s, i + n) == open && open < |s| && s[open] == '('
  {
    var n := |names[0]|;
    if CallsName(s, i, names[0], open) {
      assert !IsSpace('(');
      PassSpacesIs(s, i + n, open);
    }
  }

  /** A called name is a name, so its parenthesis is the first one from i on. */
  lemma NamedOpenIsFirst(name: string, s: string, i: nat, open: nat)
    requires IsName(name) && CallsName(s, i, name, open)
    ensures forall k :: i <= k < open ==> s[k] != '('
  {
    assert forall k :: i <= k < i + |name| ==> s[k] == name[k - i];
  }

  lemma {:induction false} CallOfIff(names: Pattern, s: string, i: nat, open: nat)
    ensures CallOf(names, s, i) == Some(open) <==> exists name :: name in names && CallsName(s, i, name, open)
  {
    if names != [] {
      var more: Pattern := names[1..];
      CallOfIff(more, s, i, open);
      assert names == [names[0]] + more;
      OneName(names, s, i, open);
      if CallOf(names, s, i).Some? && CallOf(names, s, i) != CallOf(more, s, i) {
        var first := CallOf(names, s, i).value;
        OneName(names, s, i, first);
        NamedOpenIsFirst(names[0], s, i, first);
        if name :| name in names && CallsName(s, i, name, open) {
          NamedOpenIsFirst(name, s, i, open);
        }
      }
    }
  }

  lemma MatchAtIff(p: Pattern, s: string, i: nat, open: nat)
    ensures MatchAt(p, s, i) == Some(open) <==>
            i < |s| && StartsWord(s, i) && exists name :: name in p && CallsName(s, i, name, open)
  {
    CallOfIff(p, s, i, open);
  }

  /** A call of this level of console or of logger. */
  predicate CallsLevel(s: string, i: nat, consoleName: string, loggerName: string, open: nat) {
    CallsName(s, i, consoleName, open) || CallsName(s, i, loggerName, open)
  }

  lemma TenNames()
    ensures LOG_CALL[0] == "console.log" && LOG_CALL[1] == "console.warn" && LOG_CALL[2] == "console.error"
    ensures LOG_CALL[3] == "console.info" && LOG_CALL[4] == "console.debug" && LOG_CALL[5] == "logger.log"
    ensures LOG_CALL[6] == "logger.warn" && LOG_CALL[7] == "logger.error" && LOG_CALL[8] == "logger.info"
    ensures LOG_CALL[9] == "logger.debug" && |LOG_CALL| == 10
  {
  }

  lemma LogMatches(s: string, i: nat, open: nat)
    ensures MatchAt(LOG_CALL, s, i) == Some(open) <==>
            && i < |s| && StartsWord(s, i)
            && (|| CallsLevel(s, i, "console.log", "logger.log", open)
                || CallsLevel(s, i, "console.warn", "logger.warn", open)
                || CallsLevel(s, i, "console.error", "logger.error", open)
                || CallsLevel(s, i, "console.info", "logger.info", open)
                || CallsLevel(s, i, "console.debug", "logger.debug", open))
  {
    MatchAtIff(LOG_CALL, s, i, open);
    TenNames();
  }

  /** Main result: the log pattern matches exactly a call of one of the five levels of console or
      logger at the start of a word, and so on for the two metrics patterns. */
  lemma PatternsMatch(s: string, i: nat, open: nat)
    ensures MatchAt(LOG_CALL, s, i) == Some(open) <==>
            && i < |s| && StartsWord(s, i)
            && (|| CallsLevel(s, i, "console.log", "logger.log", open)
                || CallsLevel(s, i, "console.warn", "logger.warn", open)
                || CallsLevel(s, i, "console.error", "logger.error", open)
                || CallsLevel(s, i, "console.info", "logger.info", open)
                || CallsLevel(s, i, "console.debug", "logger.debug", open))
    ensures MatchAt(STATS_CALL, s, i) == Some(open) <==>
            && i < |s| && StartsWord(s, i)
            && (CallsName(s, i, "statsLog", open) || CallsName(s, i, "InfluxConnector.statsLog", open))
    ensures MatchAt(RECORD_STATS_CALL, s, i) == Some(open) <==>
            i < |s| && StartsWord(s, i) && CallsName(s, i, "recordStatsEvent", open)
  {
    LogMatches(s, i, open);
    MatchAtIff(STATS_CALL, s, i, open);
    MatchAtIff(RECORD_STATS_CALL, s, i, open);
    assert "InfluxConnector.statsLog" in STATS_CALL && "statsLog" in STATS_CALL by {
      assert STATS_CALL[0] == "InfluxConnector.statsLog" && STATS_CALL[1] == "statsLog";
    }
    assert "recordStatsEvent" in RECORD_STATS_CALL by { assert RECORD_STATS_CALL[0] == "recordStatsEvent"; }
  }
}
