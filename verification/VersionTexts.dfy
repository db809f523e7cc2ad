/**
 * What a version text is and how two versions order, said without the parser: the grammar of Semantic
 * Versioning 2.0.0 as a printer, and the first place where two versions differ (its section 11).
 */
module VersionTexts {
  import opened Wrappers
  import opened JsText
  import opened Splitting
  import opened StringOrder
  import opened SemVer

  // ---------------------------------------------------------------- precedence

  /** The text that comes first in code unit order. */
  predicate TextBefore(x: string, y: string) {
    exists k :: 0 <= k <= |x| && k < |y| && x[..k] == y[..k] && (k == |x| || x[k] < y[k])
  }

  lemma {:induction false} LessIff(x: string, y: string)
    ensures Less(x, y) <==> TextBefore(x, y)
    decreases |x|
  {
    if x != "" && y != "" && x[0] == y[0] {
      LessIff(x[1..], y[1..]);
      if TextBefore(x[1..], y[1..]) {
        var k :| 0 <= k <= |x| - 1 && k < |y| - 1 && x[1..][..k] == y[1..][..k] &&
          (k == |x| - 1 || x[1..][k] < y[1..][k]);
        assert x[..k + 1] == [x[0]] + x[1..][..k] && y[..k + 1] == [y[0]] + y[1..][..k];
      }
      if TextBefore(x, y) {
        var k :| 0 <= k <= |x| && k < |y| && x[..k] == y[..k] && (k == |x| || x[k] < y[k]);
        assert k > 0;
        assert x[1..][..k - 1] == x[..k][1..] && y[1..][..k - 1] == y[..k][1..];
      }
    } else {
      assert y != "" ==> x[..0] == y[..0];
      forall k | 0 < k <= |x| && k < |y| ensures x[..k] != y[..k] {
        assert x[..k][0] != y[..k][0];
      }
    }
  }

  /** Numbers come before other identifiers; numbers order as numbers, others as texts. */
  predicate IdBefore(a: Id, b: Id) {
    || (a.Num? && b.Num? && a.n < b.n)
    || (a.Num? && b.Alpha?)
    || (a.Alpha? && b.Alpha? && TextBefore(a.s, b.s))
  }

  /** At the first place where they differ a has the lower identifier, or no more. */
  predicate IdsBefore(a: seq<Id>, b: seq<Id>) {
    exists k :: 0 <= k <= |a| && k < |b| && a[..k] == b[..k] && (k == |a| || IdBefore(a[k], b[k]))
  }

  lemma IdIff(a: Id, b: Id)
    ensures IdBelow(a, b) <==> IdBefore(a, b)
  {
    if a.Alpha? && b.Alpha? {
      LessIff(a.s, b.s);
    }
  }

  lemma {:induction false} IdsIff(a: seq<Id>, b: seq<Id>)
    ensures IdsBelow(a, b) <==> IdsBefore(a, b)
    decreases |a|
  {
    if a != [] && b != [] {
      IdIff(a[0], b[0]);
      IdTotal(a[0], b[0]);
    }
    if a != [] && b != [] && a[0] == b[0] {
      IdsIff(a[1..], b[1..]);
      if IdsBefore(a[1..], b[1..]) {
        var k :| 0 <= k <= |a| - 1 && k < |b| - 1 && a[1..][..k] == b[1..][..k] &&
          (k == |a| - 1 || IdBefore(a[1..][k], b[1..][k]));
        assert a[..k + 1] == [a[0]] + a[1..][..k] && b[..k + 1] == [b[0]] + b[1..][..k];
      }
      if IdsBefore(a, b) {
        var k :| 0 <= k <= |a| && k < |b| && a[..k] == b[..k] && (k == |a| || IdBefore(a[k], b[k]));
        assert k > 0;
        assert a[1..][..k - 1] == a[..k][1..] && b[1..][..k - 1] == b[..k][1..];
      }
    } else {
      assert b != [] ==> a[..0] == b[..0];
      forall k | 0 < k <= |a| && k < |b| ensures a[..k] != b[..k] {
        assert a[..k][0] != b[..k][0];
      }
    }
  }

  /** Main result on the order: one version is below another exactly when it is at the first of major,
      minor and patch where they differ, or they agree there and its prerelease comes first, which any
      prerelease does before none. */
  lemma BelowIff(a: Version, b: Version)
    ensures Below(a, b) <==>
      || a.major < b.major
      || (a.major == b.major && a.minor < b.minor)
      || (a.major == b.major && a.minor == b.minor && a.patch < b.patch)
      || (a.major == b.major && a.minor == b.minor && a.patch == b.patch
          && a.pre != [] && (b.pre == [] || IdsBefore(a.pre, b.pre)))
  {
    IdsIff(a.pre, b.pre);
  }

  // ---------------------------------------------------------------- the grammar

  /** A number without leading zeros. */
  predicate IsNumberText(s: string) {
    s != "" && (forall i :: 0 <= i < |s| ==> '0' <= s[i] <= '9') && (s[0] == '0' ==> |s| == 1)
  }

  /** Letters, digits and hyphens. */
  predicate IsIdText(s: string) {
    && s != ""
    && forall i :: 0 <= i < |s| ==>
         '0' <= s[i] <= '9' || 'a' <= s[i] <= 'z' || 'A' <= s[i] <= 'Z' || s[i] == '-'
  }

  predicate IsPreText(s: string) {
    IsIdText(s) && ((exists i :: 0 <= i < |s| && !('0' <= s[i] <= '9')) || IsNumberText(s))
  }

  function PreText(pre: seq<string>): string { if pre == [] then "" else "-" + Join(pre, ".") }

  function BuildText(build: seq<string>): string { if build == [] then "" else "+" + Join(build, ".") }

  /** The text is main "." separated, "-" and the prerelease if any, "+" and the build if any. */
  predicate Spells(u: string, main: seq<string>, pre: seq<string>, build: seq<string>) {
    && |main| == 3
    && (forall i :: 0 <= i < 3 ==> IsNumberText(main[i]) && Number(main[i]) <= 9007199254740991)
    && (forall i :: 0 <= i < |pre| ==> IsPreText(pre[i])) && (forall i :: 0 <= i < |build| ==> IsIdText(build[i]))
    && u == Join(main, ".") + (PreText(pre) + BuildText(build))
  }

  lemma TextsAre(s: string)
    ensures IsNumericId(s) <==> IsNumberText(s)
    ensures IsBuildId(s) <==> IsIdText(s)
    ensures IsPreId(s) <==> IsPreText(s)
  {
  }

  lemma {:induction false} FirstIndexIs(s: string, t: string, c: char)
    requires Lacks(s, c) && (t == "" || t[0] == c)
    ensures FirstIndex(s + t, c) == |s|
    decreases |s|
  {
    var st := s + t;
    if s != "" {
      assert st[1..] == s[1..] + t;
      FirstIndexIs(s[1..], t, c);
    } else {
      assert st == t;
    }
  }

  /** The text before a mark and the text after it, or the whole text when there is no mark. */
  lemma CutIs(s: string, t: string, c: char)
    requires Lacks(s, c) && (t == "" || t[0] == c)
    ensures FirstIndex(s + t, c) == |s| && (s + t)[..|s|] == s
    ensures t == "" <==> |s| == |s + t|
    ensures t != "" ==> (s + t)[|s| + 1..] == t[1..]
  {
    FirstIndexIs(s, t, c);
  }

  /** What the parser makes of the three texts. */
  predicate Reads(v: Version, main: seq<string>, pre: seq<string>) {
    && |main| == 3
    && v.major == Number(main[0]) && v.minor == Number(main[1]) && v.patch == Number(main[2])
    && |v.pre| == |pre|
    && forall i :: 0 <= i < |pre| ==> v.pre[i] == if IsNumberText(pre[i]) then Num(Number(pre[i])) else Alpha(pre[i])
  }

  lemma {:induction false} IdsAre(pre: seq<string>)
    requires forall i :: 0 <= i < |pre| ==> IsPreText(pre[i])
    ensures |Ids(pre)| == |pre|
    ensures forall i :: 0 <= i < |pre| ==> Ids(pre)[i] == if IsNumberText(pre[i]) then Num(Number(pre[i]))
      else Alpha(pre[i])
  {
    if pre != [] {
      IdsAre(pre[1..]);
    }
  }

  lemma JoinedLacks(parts: seq<string>, c: char)
    requires c != '.' && forall i :: 0 <= i < |parts| ==> Lacks(parts[i], c)
    ensures Lacks(Join(parts, "."), c)
  {
    JoinLacks(parts, ".", c);
  }

  lemma JoinedSplits(parts: seq<string>)
    requires parts != [] && forall i :: 0 <= i < |parts| ==> Lacks(parts[i], '.')
    ensures SplitOn(Join(parts, "."), '.') == parts
  {
    assert "." == ['.'];
    SplitJoin(parts, '.');
  }

  lemma SplitsJoin(s: string)
    ensures Join(SplitOn(s, '.'), ".") == s
  {
    assert "." == ['.'];
    JoinSplit(s, '.');
  }

  function Parts(text: string): seq<string> { if text == "" then [] else SplitOn(text[1..], '.') }

  /** What comes after a mark, in parts. */
  lemma PartsAfter(s: string, t: string, c: char, st: string)
    requires st == s + t && Lacks(s, c) && (t == "" || t[0] == c)
    ensures FirstIndex(st, c) == |s| && st[..|s|] == s
    ensures TailParts(st, |s|) == Parts(t)
  {
    CutIs(s, t, c);
  }

  /** Three texts joined are cut apart at their marks. */
  lemma CutsThree(m: string, p: string, b: string, front: string, u: string)
    requires front == m + p && u == front + b && Lacks(front, '+') && Lacks(m, '-')
    requires (p == "" || p[0] == '-') && (b == "" || b[0] == '+')
    ensures ParsePlain(u) == Assemble(SplitOn(m, '.'), Parts(p), Parts(b))
  {
    PartsAfter(front, b, '+', u);
    PartsAfter(m, p, '-', front);
    assert u[..FirstIndex(u, '+')] == front && front[..FirstIndex(front, '-')] == m;
  }

  lemma Regroup(m: string, p: string, b: string)
    ensures m + (p + b) == (m + p) + b
  {
  }

  lemma BothLack(m: string, p: string, c: char)
    requires Lacks(m, c) && Lacks(p, c)
    ensures Lacks(m + p, c)
  {
  }

  lemma PreReads(pre: seq<string>)
    requires forall i :: 0 <= i < |pre| ==> IsPreText(pre[i])
    ensures Parts(PreText(pre)) == pre && Lacks(PreText(pre), '+') && (pre == [] <==> PreText(pre) == "")
    ensures pre != [] ==> PreText(pre)[0] == '-'
  {
    forall i | 0 <= i < |pre| ensures Lacks(pre[i], '+') && Lacks(pre[i], '.') { assert IsPreText(pre[i]); }
    JoinedLacks(pre, '+');
    if pre != [] {
      JoinedSplits(pre);
      assert PreText(pre)[1..] == Join(pre, ".");
    }
  }

  lemma BuildReads(build: seq<string>)
    requires forall i :: 0 <= i < |build| ==> IsIdText(build[i])
    ensures Parts(BuildText(build)) == build && (build != [] ==> BuildText(build)[0] == '+')
    ensures build == [] ==> BuildText(build) == ""
  {
    forall i | 0 <= i < |build| ensures Lacks(build[i], '.') { assert IsIdText(build[i]); }
    if build != [] {
      JoinedSplits(build);
      assert BuildText(build)[1..] == Join(build, ".");
    }
  }

  lemma MainReads(main: seq<string>)
    requires |main| == 3 && forall i :: 0 <= i < 3 ==> IsNumberText(main[i])
    ensures SplitOn(Join(main, "."), '.') == main && Lacks(Join(main, "."), '+') && Lacks(Join(main, "."), '-')
  {
    forall i | 0 <= i < |main| ensures Lacks(main[i], '+') && Lacks(main[i], '-') && Lacks(main[i], '.') {
      assert IsNumberText(main[i]);
    }
    JoinedLacks(main, '+');
    JoinedLacks(main, '-');
    JoinedSplits(main);
  }

  /** The parser cuts the printed text back into its three parts. */
  lemma CutsBack(main: seq<string>, pre: seq<string>, build: seq<string>, u: string)
    requires Spells(u, main, pre, build)
    ensures ParsePlain(u) == Assemble(main, pre, build)
  {
    MainReads(main);
    PreReads(pre);
    BuildReads(build);
    var m, p, b := Join(main, "."), PreText(pre), BuildText(build);
    Regroup(m, p, b);
    BothLack(m, p, '+');
    CutsThree(m, p, b, m + p, u);
  }

  lemma SpelledReads(s: string, main: seq<string>, pre: seq<string>, build: seq<string>)
    requires |s| <= 256 && Spells(StripV(Trim(s)), main, pre, build)
    ensures Parse(s).Some? && Reads(Parse(s).value, main, pre)
  {
    CutsBack(main, pre, build, StripV(Trim(s)));
    forall i | 0 <= i < 3 ensures IsNumericId(main[i]) { TextsAre(main[i]); }
    forall i | 0 <= i < |pre| ensures IsPreId(pre[i]) { TextsAre(pre[i]); }
    forall i | 0 <= i < |build| ensures IsBuildId(build[i]) { TextsAre(build[i]); }
    IdsAre(pre);
  }

  lemma CutAt(u: string, c: char) returns (s: string, t: string)
    ensures u == s + t && (t == "" || t[0] == c) && Lacks(s, c)
  {
    s, t := u[..FirstIndex(u, c)], u[FirstIndex(u, c)..];
  }

  lemma SplitPrints(text: string, mark: char)
    requires text == "" || text[0] == mark
    ensures text == if Parts(text) == [] then "" else [mark] + Join(Parts(text), ".")
  {
    if text != "" {
      SplitsJoin(text[1..]);
      assert text == [mark] + text[1..];
    }
  }

  /** A text that parses is cut into three that print it again. */
  lemma ThreeCuts(u: string) returns (m: string, p: string, b: string)
    requires ParsePlain(u).Some?
    ensures u == m + (p + b)
    ensures ParsePlain(u) == Assemble(SplitOn(m, '.'), Parts(p), Parts(b))
    ensures m == Join(SplitOn(m, '.'), ".") && p == PreText(Parts(p)) && b == BuildText(Parts(b))
  {
    var front;
    front, b := CutAt(u, '+');
    m, p := CutAt(front, '-');
    Regroup(m, p, b);
    CutsThree(m, p, b, front, u);
    SplitsJoin(m);
    SplitPrints(p, '-');
    SplitPrints(b, '+');
  }

  lemma ReadSpelled(s: string) returns (main: seq<string>, pre: seq<string>, build: seq<string>)
    requires Parse(s).Some?
    ensures Spells(StripV(Trim(s)), main, pre, build)
  {
    var m, p, b := ThreeCuts(StripV(Trim(s)));
    main, pre, build := SplitOn(m, '.'), Parts(p), Parts(b);
    assert AreMain(main) && ArePreIds(pre) && AreBuildIds(build);
    forall i | 0 <= i < 3 ensures IsNumberText(main[i]) { TextsAre(main[i]); }
    forall i | 0 <= i < |pre| ensures IsPreText(pre[i]) { TextsAre(pre[i]); }
    forall i | 0 <= i < |build| ensures IsIdText(build[i]) { TextsAre(build[i]); }
  }

  /** Main result on the grammar: a text of at most 256 characters is a version exactly when, without
      its outer white space and one leading v, it spells one; and it is the version spelled. */
  lemma ParsesIffSpelled(s: string)
    ensures Parse(s).Some? <==> |s| <= 256 && exists main, pre, build :: Spells(StripV(Trim(s)), main, pre, build)
    ensures forall main, pre, build :: |s| <= 256 && Spells(StripV(Trim(s)), main, pre, build) ==>
              Parse(s).Some? && Reads(Parse(s).value, main, pre)
  {
    if Parse(s).Some? {
      var main, pre, build := ReadSpelled(s);
    }
    forall main, pre, build | |s| <= 256 && Spells(StripV(Trim(s)), main, pre, build)
      ensures Parse(s).Some? && Reads(Parse(s).value, main, pre)
    {
      SpelledReads(s, main, pre, build);
    }
  }
}
