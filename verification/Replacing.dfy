/**
 * Replacing every match of a pattern, leftmost and without overlap, as a global regular
 * expression does: what is kept, and when no match survives.
 */
module Replacing {
  import opened Wrappers

  /** The length of the match at the start of a text, when there is one. */
  type Finder = string -> Option<nat>

  ghost predicate Sound(find: Finder) {
    forall s :: find(s).Some? ==> 0 < find(s).value <= |s|
  }

  function Replace(find: Finder, marker: string, s: string): string
    requires Sound(find)
    decreases |s|
  {
    if s == "" then ""
    else match find(s)
      case Some(m) => marker + Replace(find, marker, s[m..])
      case None => [s[0]] + Replace(find, marker, s[1..])
  }

  /** How many matches a global match finds: as many as a replacement cuts. */
  function Count(find: Finder, s: string): nat
    requires Sound(find)
    decreases |s|
  {
    if s == "" then 0
    else match find(s)
      case Some(m) => 1 + Count(find, s[m..])
      case None => Count(find, s[1..])
  }

  // ---------------------------------------------------------------- where a match starts

  /** The test holds of no suffix of s. */
  ghost predicate Nowhere(at: string -> bool, s: string) {
    forall i :: 0 <= i <= |s| ==> !at(s[i..])
  }

  lemma NowhereCons(at: string -> bool, c: char, s: string)
    ensures Nowhere(at, [c] + s) <==> !at([c] + s) && Nowhere(at, s)
  {
    var t := [c] + s;
    assert t[0..] == t;
    assert forall i :: 0 <= i <= |s| ==> t[i + 1..] == s[i..];
    if !at(t) && Nowhere(at, s) {
      forall i | 0 <= i <= |t| ensures !at(t[i..]) {
        if i > 0 { assert t[i..] == s[i - 1..]; }
      }
    }
    if Nowhere(at, t) {
      forall i | 0 <= i <= |s| ensures !at(s[i..]) { assert t[i + 1..] == s[i..]; }
    }
  }

  /** The test follows the pattern on every suffix of s: whatever passes it is found. */
  ghost predicate Follows(find: Finder, at: string -> bool, s: string) {
    forall i :: 0 <= i <= |s| && find(s[i..]).None? ==> !at(s[i..])
  }

  lemma FollowsSuffix(find: Finder, at: string -> bool, s: string, m: nat)
    requires Follows(find, at, s) && m <= |s|
    ensures Follows(find, at, s[m..])
  {
    forall i | 0 <= i <= |s[m..]| && find(s[m..][i..]).None? ensures !at(s[m..][i..]) {
      assert s[m..][i..] == s[m + i..];
    }
  }

  /** What passes the test is decided by a prefix without a bracket. */
  ghost predicate DecidedBy(at: string -> bool, t: string, m: nat) {
    && m <= |t| && (forall i :: 0 <= i < m ==> t[i] != '[')
    && (forall s: string {:trigger at(s)} :: m <= |s| && (forall i :: 0 <= i < m ==> s[i] == t[i]) ==> at(s))
  }

  ghost predicate IsDecided(at: string -> bool) {
    forall t :: at(t) ==> exists m: nat :: DecidedBy(at, t, m)
  }

  /** No match begins inside the marker, whatever follows it. */
  ghost predicate Blocks(marker: string, at: string -> bool) {
    forall j, rest: string :: 0 <= j < |marker| ==> !at(marker[j..] + rest)
  }

  lemma {:induction false} NowhereAcross(at: string -> bool, marker: string, j: nat, rest: string)
    requires Blocks(marker, at) && Nowhere(at, rest) && j <= |marker|
    ensures Nowhere(at, marker[j..] + rest)
    decreases |marker| - j
  {
    if j == |marker| {
      assert marker[j..] + rest == rest;
    } else {
      NowhereAcross(at, marker, j + 1, rest);
      assert marker[j..] + rest == [marker[j]] + (marker[j + 1..] + rest);
      NowhereCons(at, marker[j], marker[j + 1..] + rest);
    }
  }

  // ---------------------------------------------------------------- no match survives

  /** Up to the first bracket, the replaced text is the text. */
  lemma {:induction false} PrefixKept(find: Finder, marker: string, s: string, n: nat)
    requires Sound(find) && marker != "" && marker[0] == '['
    requires var t := Replace(find, marker, s); n <= |t| && forall i :: 0 <= i < n ==> t[i] != '['
    ensures n <= |s| && forall i :: 0 <= i < n ==> s[i] == Replace(find, marker, s)[i]
    decreases |s|
  {
    if n > 0 {
      var t := Replace(find, marker, s);
      assert t[0] != '[';
      assert find(s).None?;
      var rest := Replace(find, marker, s[1..]);
      assert forall i :: 0 <= i < |rest| ==> rest[i] == t[i + 1];
      PrefixKept(find, marker, s[1..], n - 1);
    }
  }

  lemma NotCreated(find: Finder, marker: string, at: string -> bool, s: string)
    requires Sound(find) && marker != "" && marker[0] == '['
    requires IsDecided(at) && Follows(find, at, s) && find(s).None?
    ensures !at(Replace(find, marker, s))
  {
    var t := Replace(find, marker, s);
    assert s[0..] == s;
    if at(t) {
      var m: nat :| DecidedBy(at, t, m);
      PrefixKept(find, marker, s, m);
    }
  }

  /** Main result: replacing leaves nothing that passes the test, when whatever passes it in the
      text is found and the marker takes part in nothing that passes it. */
  lemma {:induction false} Gone(find: Finder, marker: string, at: string -> bool, s: string)
    requires Sound(find) && marker != "" && marker[0] == '['
    requires IsDecided(at) && Blocks(marker, at) && Follows(find, at, s)
    ensures Nowhere(at, Replace(find, marker, s))
    decreases |s|
  {
    if s == "" {
      assert s[0..] == s;
    } else if find(s).Some? {
      var m := find(s).value;
      FollowsSuffix(find, at, s, m);
      Gone(find, marker, at, s[m..]);
      NowhereAcross(at, marker, 0, Replace(find, marker, s[m..]));
      assert marker[0..] == marker;
    } else {
      FollowsSuffix(find, at, s, 1);
      Gone(find, marker, at, s[1..]);
      NotCreated(find, marker, at, s);
      NowhereCons(at, s[0], Replace(find, marker, s[1..]));
    }
  }

  /** Where nothing is found, nothing is replaced and nothing counted. */
  lemma {:induction false} NothingFound(find: Finder, marker: string, s: string)
    requires Sound(find)
    ensures Count(find, s) == 0 <==> forall i :: 0 <= i <= |s| ==> find(s[i..]).None?
    ensures Count(find, s) == 0 ==> Replace(find, marker, s) == s
    decreases |s|
  {
    if s == "" {
      assert s[0..] == "";
    } else {
      assert s[0..] == s;
      NothingFound(find, marker, s[1..]);
      assert forall i :: 0 < i <= |s| ==> s[i..] == s[1..][i - 1..];
      assert forall i :: 0 <= i < |s| ==> s[1..][i..] == s[i + 1..];
    }
  }

  // ---------------------------------------------------------------- what is kept

  /** A replacement as a split of its input: characters kept, and whole matches cut out. */
  datatype Segment = Kept(c: char) | Cut(text: string)

  function Original(segments: seq<Segment>): string {
    if segments == [] then ""
    else (if segments[0].Kept? then [segments[0].c] else segments[0].text) + Original(segments[1..])
  }

  function Rendered(segments: seq<Segment>, marker: string): string {
    if segments == [] then ""
    else (if segments[0].Kept? then [segments[0].c] else marker) + Rendered(segments[1..], marker)
  }

  /** A whole match of the pattern. */
  ghost predicate IsMatch(find: Finder, text: string) {
    exists s :: find(s).Some? && find(s).value <= |s| && text == s[..find(s).value]
  }

  /** Main result: every character outside the matches is kept, in order; only whole matches are
      cut, and each gives one marker. */
  lemma {:induction false} KeepTheRest(find: Finder, marker: string, s: string) returns (segments: seq<Segment>)
    requires Sound(find)
    ensures Original(segments) == s && Rendered(segments, marker) == Replace(find, marker, s)
    ensures forall i :: 0 <= i < |segments| && segments[i].Cut? ==> IsMatch(find, segments[i].text)
    decreases |s|
  {
    if s == "" {
      segments := [];
    } else {
      var head, m := Kept(s[0]), 1;
      if find(s).Some? {
        m := find(s).value;
        head := Cut(s[..m]);
      }
      var rest := KeepTheRest(find, marker, s[m..]);
      segments := [head] + rest;
      assert segments[1..] == rest;
      assert s == s[..m] + s[m..];
    }
  }
}
