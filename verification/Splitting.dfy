/**
 * Splitting text, the way the header checker and the version parser do it:
 *
 *   SplitOn    String.prototype.split with a one-character separator
 *   Join       Array.prototype.join
 *   Collapse   replace(/\s+/g, " ") and trim
 *   Words      the maximal runs without white space, which is what collapsing keeps
 *
 * with the lemmas that splitting undoes joining and that collapsing joins the words.
 */
module Splitting {
  import opened JsText

  predicate Lacks(s: string, c: char) { forall k :: 0 <= k < |s| ==> s[k] != c }

  /** String.prototype.split with a one-character separator. */
  function SplitOn(s: string, c: char): (parts: seq<string>)
    ensures |parts| > 0
    ensures forall i :: 0 <= i < |parts| ==> Lacks(parts[i], c)
  {
    if s == "" then [""]
    else
      var rest := SplitOn(s[1..], c);
      if s[0] == c then [""] + rest else [[s[0]] + rest[0]] + rest[1..]
  }

  /** Array.prototype.join. */
  function Join(parts: seq<string>, sep: string): string {
    if parts == [] then "" else if |parts| == 1 then parts[0] else parts[0] + (sep + Join(parts[1..], sep))
  }

  /** replace(/\s+/g, " ") */
  function ReplaceRuns(s: string): string {
    if s == "" then ""
    else if !IsSpace(s[0]) then [s[0]] + ReplaceRuns(s[1..])
    else if |s| > 1 && IsSpace(s[1]) then ReplaceRuns(s[1..])
    else [' '] + ReplaceRuns(s[1..])
  }

  function Collapse(s: string): string { Trim(ReplaceRuns(s)) }

  // ---------------------------------------------------------------- words

  /** The maximal runs of characters that are no white space. */
  function Words(s: string): (words: seq<string>)
    ensures s != "" && !IsSpace(s[0]) ==> words != []
  {
    if s == "" then []
    else if IsSpace(s[0]) then Words(s[1..])
    else if |s| == 1 || IsSpace(s[1]) then [[s[0]]] + Words(s[1..])
    else var rest := Words(s[1..]); [[s[0]] + rest[0]] + rest[1..]
  }

  predicate IsWord(w: string) {
    w != "" && forall k :: 0 <= k < |w| ==> !IsSpace(w[k])
  }

  predicate AreWords(ws: seq<string>) {
    forall i :: 0 <= i < |ws| ==> IsWord(ws[i])
  }

  lemma {:induction false} WordsAreWords(s: string)
    ensures AreWords(Words(s))
  {
    if s != "" {
      WordsAreWords(s[1..]);
    }
  }

  function Lead(s: string): string { if s != "" && IsSpace(s[0]) then " " else "" }

  function Trail(s: string): string { if Words(s) != [] && IsSpace(s[|s| - 1]) then " " else "" }

  lemma LeadJoins(s: string, body: string)
    requires s != "" && IsSpace(s[0]) && ReplaceRuns(s[1..]) == Lead(s[1..]) + body
    ensures ReplaceRuns(s) == Lead(s) + body
  {
    if |s| == 1 || !IsSpace(s[1]) {
      assert Lead(s[1..]) + body == body;
    }
  }

  lemma RunsAfterSpace(s: string)
    requires s != "" && IsSpace(s[0])
    requires ReplaceRuns(s[1..]) == Lead(s[1..]) + (Join(Words(s[1..]), " ") + Trail(s[1..]))
    ensures ReplaceRuns(s) == Lead(s) + (Join(Words(s), " ") + Trail(s))
  {
    LeadJoins(s, Join(Words(s[1..]), " ") + Trail(s[1..]));
    assert Trail(s) == Trail(s[1..]);
  }

  lemma JoinCons(w: string, ws: seq<string>)
    requires ws != []
    ensures Join([w] + ws, " ") == w + (" " + Join(ws, " "))
  {
    assert ([w] + ws)[1..] == ws;
  }

  lemma Sum4(a: string, b: string, c: string)
    ensures a + (" " + (b + c)) == "" + ((a + (" " + b)) + c)
  {
  }

  /** Without words, nothing but spaces. */
  lemma {:induction false} AllSpaces(s: string)
    requires Words(s) == []
    ensures s != "" ==> IsSpace(s[|s| - 1]) && ReplaceRuns(s) == " "
  {
    if |s| > 1 {
      AllSpaces(s[1..]);
    }
  }

  lemma RunsAfterWord(s: string)
    requires s != "" && !IsSpace(s[0]) && (|s| > 1 ==> IsSpace(s[1]))
    requires ReplaceRuns(s[1..]) == Lead(s[1..]) + (Join(Words(s[1..]), " ") + Trail(s[1..]))
    ensures ReplaceRuns(s) == Lead(s) + (Join(Words(s), " ") + Trail(s))
  {
    var t := s[1..];
    assert Words(s) == [[s[0]]] + Words(t);
    if Words(t) == [] {
      AllSpaces(t);
      assert Join(Words(s), " ") == [s[0]];
    } else {
      JoinCons([s[0]], Words(t));
      Sum4([s[0]], Join(Words(t), " "), Trail(t));
      assert Trail(s) == Trail(t);
    }
  }

  lemma Sum3(a: string, b: string, c: string)
    ensures a + ("" + (b + c)) == "" + ((a + b) + c)
  {
  }

  lemma JoinHead(c: string, ws: seq<string>)
    requires ws != []
    ensures Join([c + ws[0]] + ws[1..], " ") == c + Join(ws, " ")
  {
    assert ([c + ws[0]] + ws[1..])[1..] == ws[1..];
  }

  lemma RunsInWord(s: string)
    requires |s| > 1 && !IsSpace(s[0]) && !IsSpace(s[1])
    requires ReplaceRuns(s[1..]) == Lead(s[1..]) + (Join(Words(s[1..]), " ") + Trail(s[1..]))
    ensures ReplaceRuns(s) == Lead(s) + (Join(Words(s), " ") + Trail(s))
  {
    var j := Join(Words(s[1..]), " ");
    JoinHead([s[0]], Words(s[1..]));
    assert Join(Words(s), " ") == [s[0]] + j;
    Sum3([s[0]], j, Trail(s[1..]));
    assert Trail(s) == Trail(s[1..]);
  }

  /** Replacing runs leaves the words, one space apart, and at most one space on either side. */
  lemma {:induction false} RunsAreWords(s: string)
    ensures ReplaceRuns(s) == Lead(s) + (Join(Words(s), " ") + Trail(s))
  {
    if s != "" {
      var t := s[1..];
      RunsAreWords(t);
      if IsSpace(s[0]) {
        RunsAfterSpace(s);
      } else if t == "" || IsSpace(t[0]) {
        RunsAfterWord(s);
      } else {
        RunsInWord(s);
      }
    }
  }

  lemma {:induction false} JoinEnds(ws: seq<string>)
    requires AreWords(ws) && ws != []
    ensures var j := Join(ws, " ");
      j != "" && !IsSpace(j[0]) && !IsSpace(j[|j| - 1])
  {
    if |ws| > 1 {
      JoinEnds(ws[1..]);
    }
  }

  lemma TrimPadded(lead: string, j: string, trail: string)
    requires j != "" && !IsSpace(j[0]) && !IsSpace(j[|j| - 1])
    requires (lead == "" || lead == " ") && (trail == "" || trail == " ")
    ensures Trim(lead + (j + trail)) == j
  {
    var inner := lead + j;
    assert lead + (j + trail) == inner + trail;
    assert inner[|inner| - 1] == j[|j| - 1];
    assert TrimEnd(inner + trail) == inner by {
      if trail == " " {
        assert (inner + trail)[..|inner|] == inner;
      } else {
        assert inner + trail == inner;
      }
    }
    assert TrimStart(inner) == j by {
      if lead == " " {
        assert inner[1..] == j;
      } else {
        assert inner == j;
      }
    }
  }

  /** Main result: collapsing gives the words of the text, one space apart. */
  lemma CollapseIsWords(s: string)
    ensures Collapse(s) == Join(Words(s), " ")
  {
    var j := Join(Words(s), " ");
    RunsAreWords(s);
    WordsAreWords(s);
    if Words(s) == [] {
      AllSpaces(s);
      assert TrimEnd("") == "" && TrimEnd(" ") == "";
    } else {
      JoinEnds(Words(s));
      TrimPadded(Lead(s), j, Trail(s));
    }
  }

  // ---------------------------------------------------------------- splitting what was joined

  /** The parts hold no character the text does not hold. */
  lemma {:induction false} SplitLacks(s: string, c: char, x: char)
    requires Lacks(s, x)
    ensures forall i :: 0 <= i < |SplitOn(s, c)| ==> Lacks(SplitOn(s, c)[i], x)
  {
    if s != "" {
      SplitLacks(s[1..], c, x);
    }
  }

  lemma {:induction false} SplitHead(a: string, c: char, rest: string)
    requires Lacks(a, c)
    ensures SplitOn(a + ([c] + rest), c) == [a] + SplitOn(rest, c)
  {
    var s := a + ([c] + rest);
    if a == "" {
      assert s == [c] + rest && s[1..] == rest;
    } else {
      assert s[1..] == a[1..] + ([c] + rest);
      SplitHead(a[1..], c, rest);
      assert [a[0]] + a[1..] == a;
    }
  }

  lemma {:induction false} SplitWhole(a: string, c: char)
    requires Lacks(a, c)
    ensures SplitOn(a, c) == [a]
  {
    if a != "" {
      SplitWhole(a[1..], c);
      assert [a[0]] + a[1..] == a;
    }
  }

  /** Splitting undoes joining by the same character. */
  lemma {:induction false} SplitJoin(parts: seq<string>, c: char)
    requires parts != [] && forall i :: 0 <= i < |parts| ==> Lacks(parts[i], c)
    ensures SplitOn(Join(parts, [c]), c) == parts
  {
    if |parts| == 1 {
      SplitWhole(parts[0], c);
    } else {
      SplitHead(parts[0], c, Join(parts[1..], [c]));
      SplitJoin(parts[1..], c);
      assert parts == [parts[0]] + parts[1..];
    }
  }

  lemma {:induction false} JoinSplit(s: string, c: char)
    ensures Join(SplitOn(s, c), [c]) == s
  {
    if s != "" {
      var rest := SplitOn(s[1..], c);
      JoinSplit(s[1..], c);
      if s[0] == c {
        assert ([""] + rest)[1..] == rest;
        assert Join(SplitOn(s, c), [c]) == "" + ([c] + s[1..]);
      } else {
        assert SplitOn(s, c)[1..] == rest[1..];
      }
    }
  }

  lemma {:induction false} JoinLacks(ws: seq<string>, sep: string, c: char)
    requires Lacks(sep, c) && forall i :: 0 <= i < |ws| ==> Lacks(ws[i], c)
    ensures Lacks(Join(ws, sep), c)
  {
    if |ws| > 1 {
      JoinLacks(ws[1..], sep, c);
    }
  }

  lemma {:induction false} WordsOfWord(w: string, rest: string)
    requires IsWord(w) && (rest == "" || IsSpace(rest[0]))
    ensures Words(w + rest) == [w] + Words(rest)
  {
    var s := w + rest;
    assert s[1..] == w[1..] + rest;
    if |w| > 1 {
      WordsOfWord(w[1..], rest);
      assert [w[0]] + w[1..] == w;
    } else {
      assert s[1..] == rest && [s[0]] == w;
    }
  }

  /** The words of words joined are those words. */
  lemma {:induction false} WordsOfJoin(ws: seq<string>)
    requires AreWords(ws)
    ensures Words(Join(ws, " ")) == ws
  {
    if ws != [] {
      var rest := Join(ws[1..], " ");
      WordsOfJoin(ws[1..]);
      if |ws| == 1 {
        WordsOfWord(ws[0], "");
        assert ws[0] + "" == ws[0];
      } else {
        WordsOfWord(ws[0], " " + rest);
        assert (" " + rest)[1..] == rest;
      }
      assert ws == [ws[0]] + ws[1..];
    }
  }
}
