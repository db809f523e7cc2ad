/**
 * Versions as the semver package reads and orders them: the strict grammar of Semantic
 * Versioning 2.0.0 with a leading "v" and outer white space allowed, and the precedence of its
 * section 11.
 *
 *   1.2.3-rc.1+build.5
 *   main  three numbers without leading zeros, none beyond the safe integers
 *   pre   after the first "-", dotted identifiers; they order before the same version without them
 *   build after the first "+", dotted identifiers; they do not take part in the order
 */
module SemVer {
  import opened Wrappers
  import opened JsText
  import opened Splitting
  import opened StringOrder

  const MAX_LENGTH := 256
  const MAX_SAFE_INTEGER := 9007199254740991

  datatype Id = Num(n: int) | Alpha(s: string)

  datatype Version = Version(major: int, minor: int, patch: int, pre: seq<Id>)

  // ---------------------------------------------------------------- grammar

  predicate IsIdChar(c: char) { IsDigit(c) || 'a' <= c <= 'z' || 'A' <= c <= 'Z' || c == '-' }

  predicate IsNumericId(s: string) { s != "" && AllDigits(s) && (s[0] == '0' ==> |s| == 1) }

  predicate IsBuildId(s: string) { s != "" && forall i :: 0 <= i < |s| ==> IsIdChar(s[i]) }

  predicate IsPreId(s: string) { IsBuildId(s) && (AllDigits(s) ==> IsNumericId(s)) }

  predicate AreBuildIds(ids: seq<string>) { forall i :: 0 <= i < |ids| ==> IsBuildId(ids[i]) }

  predicate ArePreIds(ids: seq<string>) { forall i :: 0 <= i < |ids| ==> IsPreId(ids[i]) }

  /** The three numbers of a version. */
  predicate AreMain(parts: seq<string>) {
    |parts| == 3 && forall i :: 0 <= i < 3 ==> IsNumericId(parts[i]) && Number(parts[i]) <= MAX_SAFE_INTEGER
  }

  function Ids(ids: seq<string>): seq<Id> {
    if ids == [] then [] else [if AllDigits(ids[0]) then Num(Number(ids[0])) else Alpha(ids[0])] + Ids(ids[1..])
  }

  function FirstIndex(s: string, c: char): (i: nat)
    ensures i <= |s| && Lacks(s[..i], c) && (i < |s| ==> s[i] == c)
  {
    if s == "" || s[0] == c then 0 else
      var i := FirstIndex(s[1..], c);
      assert s[..i + 1] == [s[0]] + s[1..][..i];
      i + 1
  }

  function StripV(s: string): string { if s != "" && s[0] == 'v' then s[1..] else s }

  function Assemble(main: seq<string>, pre: seq<string>, build: seq<string>): (v: Option<Version>)
    ensures v.Some? ==> AreMain(main) && ArePreIds(pre) && AreBuildIds(build)
  {
    if AreMain(main) && ArePreIds(pre) && AreBuildIds(build)
    then Some(Version(Number(main[0]), Number(main[1]), Number(main[2]), Ids(pre)))
    else None
  }

  /** The parts after a mark at i, if there is one. */
  function TailParts(s: string, i: nat): seq<string> { if i < |s| then SplitOn(s[i + 1..], '.') else [] }

  /** A version without its outer white space and leading v. */
  function ParsePlain(u: string): Option<Version> {
    var plus := FirstIndex(u, '+');
    var front := u[..plus];
    var dash := FirstIndex(front, '-');
    Assemble(SplitOn(front[..dash], '.'), TailParts(front, dash), TailParts(u, plus))
  }

  /** semver.parse: the version a text denotes, if it is valid. */
  function Parse(s: string): Option<Version> {
    if |s| > MAX_LENGTH then None else ParsePlain(StripV(Trim(s)))
  }

  // ---------------------------------------------------------------- precedence

  predicate IdBelow(a: Id, b: Id) {
    match (a, b)
    case (Num(m), Num(n)) => m < n
    case (Num(_), Alpha(_)) => true
    case (Alpha(_), Num(_)) => false
    case (Alpha(x), Alpha(y)) => Less(x, y)
  }

  predicate IdsBelow(a: seq<Id>, b: seq<Id>) {
    b != [] && (a == [] || IdBelow(a[0], b[0]) || (a[0] == b[0] && IdsBelow(a[1..], b[1..])))
  }

  predicate PreBelow(a: seq<Id>, b: seq<Id>) {
    a != [] && (b == [] || IdsBelow(a, b))
  }

  /** semver.lt */
  predicate Below(a: Version, b: Version) {
    if a.major != b.major then a.major < b.major
    else if a.minor != b.minor then a.minor < b.minor
    else if a.patch != b.patch then a.patch < b.patch
    else PreBelow(a.pre, b.pre)
  }

  lemma IdTotal(a: Id, b: Id)
    ensures IdBelow(a, b) || IdBelow(b, a) || a == b
    ensures !(IdBelow(a, b) && IdBelow(b, a)) && !IdBelow(a, a)
  {
    if a.Alpha? && b.Alpha? {
      LessTotal(a.s, b.s);
    }
    if a.Alpha? {
      LessTotal(a.s, a.s);
    }
  }

  lemma IdTransitive(a: Id, b: Id, c: Id)
    requires IdBelow(a, b) && IdBelow(b, c)
    ensures IdBelow(a, c)
  {
    if a.Alpha? && b.Alpha? && c.Alpha? {
      LessTransitive(a.s, b.s, c.s);
    }
  }

  lemma {:induction false} IdsTotal(a: seq<Id>, b: seq<Id>)
    ensures IdsBelow(a, b) || IdsBelow(b, a) || a == b
    ensures !(IdsBelow(a, b) && IdsBelow(b, a)) && !IdsBelow(a, a)
    decreases |a|
  {
    if a != [] {
      IdsTotal(a[1..], a[1..]);
      IdTotal(a[0], a[0]);
      if b != [] {
        IdsTotal(a[1..], b[1..]);
        IdTotal(a[0], b[0]);
        assert a == [a[0]] + a[1..] && b == [b[0]] + b[1..];
      }
    }
  }

  lemma {:induction false} IdsTransitive(a: seq<Id>, b: seq<Id>, c: seq<Id>)
    requires IdsBelow(a, b) && IdsBelow(b, c)
    ensures IdsBelow(a, c)
    decreases |a|
  {
    if a != [] {
      if a[0] == b[0] && b[0] == c[0] && IdsBelow(a[1..], b[1..]) && IdsBelow(b[1..], c[1..]) {
        IdsTransitive(a[1..], b[1..], c[1..]);
      } else if IdBelow(a[0], b[0]) && IdBelow(b[0], c[0]) {
        IdTransitive(a[0], b[0], c[0]);
      }
    }
  }

  /** Precedence is a total order on versions: of two different ones exactly one is below the other. */
  lemma PrecedenceIsTotal(a: Version, b: Version)
    ensures Below(a, b) || Below(b, a) || a == b
    ensures !(Below(a, b) && Below(b, a)) && !Below(a, a)
  {
    IdsTotal(a.pre, b.pre);
    IdsTotal(a.pre, a.pre);
  }

  lemma PrecedenceIsTransitive(a: Version, b: Version, c: Version)
    requires Below(a, b) && Below(b, c)
    ensures Below(a, c)
  {
    if a.major == b.major == c.major && a.minor == b.minor == c.minor && a.patch == b.patch == c.patch && c.pre != [] {
      IdsTransitive(a.pre, b.pre, c.pre);
    }
  }

  // ---------------------------------------------------------------- what valid texts hold

  predicate IsVersionChar(c: char) { IsIdChar(c) || c == '.' || c == '+' || IsSpace(c) }

  predicate AllVersionChars(s: string) { forall i :: 0 <= i < |s| ==> IsVersionChar(s[i]) }

  lemma {:induction false} PartsChars(s: string, c: char)
    requires IsVersionChar(c) && forall i :: 0 <= i < |SplitOn(s, c)| ==> AllVersionChars(SplitOn(s, c)[i])
    ensures AllVersionChars(s)
  {
    if s != "" {
      var parts, rest := SplitOn(s, c), SplitOn(s[1..], c);
      forall i | 0 <= i < |rest| ensures AllVersionChars(rest[i]) {
        if s[0] == c {
          assert rest[i] == parts[i + 1];
        } else if i == 0 {
          assert parts[0] == [s[0]] + rest[0];
          assert forall k :: 0 <= k < |rest[0]| ==> rest[0][k] == parts[0][k + 1];
        } else {
          assert rest[i] == parts[i];
        }
      }
      PartsChars(s[1..], c);
      assert IsVersionChar(s[0]) by { if s[0] != c { assert parts[0][0] == s[0]; } }
    }
  }

  lemma CutChars(u: string, i: nat)
    requires i <= |u| && AllVersionChars(u[..i]) && (i < |u| ==> IsVersionChar(u[i]) && AllVersionChars(u[i + 1..]))
    ensures AllVersionChars(u)
  {
    forall k | 0 <= k < |u| ensures IsVersionChar(u[k]) {
      if k < i {
        assert u[k] == u[..i][k];
      } else if k > i {
        assert u[k] == u[i + 1..][k - i - 1];
      }
    }
  }

  lemma BuildChars(s: string)
    requires AreBuildIds(SplitOn(s, '.')) || ArePreIds(SplitOn(s, '.')) || AreMain(SplitOn(s, '.'))
    ensures AllVersionChars(s)
  {
    var parts := SplitOn(s, '.');
    forall i | 0 <= i < |parts| ensures AllVersionChars(parts[i]) {
      if AreMain(parts) {
        assert IsNumericId(parts[i]);
      } else {
        assert IsBuildId(parts[i]);
      }
    }
    PartsChars(s, '.');
  }

  lemma FrontChars(front: string, dash: nat)
    requires dash <= |front| && AreMain(SplitOn(front[..dash], '.'))
    requires dash < |front| ==> front[dash] == '-' && ArePreIds(SplitOn(front[dash + 1..], '.'))
    ensures AllVersionChars(front)
  {
    BuildChars(front[..dash]);
    if dash < |front| {
      BuildChars(front[dash + 1..]);
    }
    CutChars(front, dash);
  }

  lemma WholeChars(u: string, plus: nat)
    requires plus <= |u| && AllVersionChars(u[..plus])
    requires plus < |u| ==> u[plus] == '+' && AreBuildIds(SplitOn(u[plus + 1..], '.'))
    ensures AllVersionChars(u)
  {
    if plus < |u| {
      BuildChars(u[plus + 1..]);
    }
    CutChars(u, plus);
  }

  lemma PlainHolds(u: string, plus: nat, front: string, dash: nat)
    requires ParsePlain(u).Some? && plus == FirstIndex(u, '+') && front == u[..plus] && dash == FirstIndex(front, '-')
    ensures AreMain(SplitOn(front[..dash], '.'))
    ensures dash < |front| ==> ArePreIds(SplitOn(front[dash + 1..], '.'))
    ensures plus < |u| ==> AreBuildIds(SplitOn(u[plus + 1..], '.'))
  {
  }

  lemma PlainChars(u: string)
    requires ParsePlain(u).Some?
    ensures AllVersionChars(u)
  {
    var plus := FirstIndex(u, '+');
    var front := u[..plus];
    var dash := FirstIndex(front, '-');
    PlainHolds(u, plus, front, dash);
    FrontChars(front, dash);
    WholeChars(u, plus);
  }

  lemma {:induction false} TrimStartChars(s: string)
    requires AllVersionChars(TrimStart(s))
    ensures AllVersionChars(s)
  {
    if s != "" && IsSpace(s[0]) {
      TrimStartChars(s[1..]);
      assert forall i :: 0 < i < |s| ==> s[i] == s[1..][i - 1];
    }
  }

  lemma {:induction false} TrimEndChars(s: string)
    requires AllVersionChars(TrimEnd(s))
    ensures AllVersionChars(s)
  {
    if s != "" && IsSpace(s[|s| - 1]) {
      TrimEndChars(s[..|s| - 1]);
      assert forall i :: 0 <= i < |s| - 1 ==> s[i] == s[..|s| - 1][i];
    }
  }

  /** A valid version holds nothing but the characters of its grammar; in particular no colon. */
  lemma ValidChars(s: string)
    requires Parse(s).Some?
    ensures AllVersionChars(s) && Lacks(s, ':')
  {
    var t := Trim(s);
    PlainChars(StripV(t));
    assert AllVersionChars(t) by {
      if t != "" && t[0] == 'v' { assert t == ['v'] + t[1..]; }
    }
    TrimStartChars(TrimEnd(s));
    TrimEndChars(s);
  }
}
