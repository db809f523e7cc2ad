/**
 * Redaction of reset keys and e-mail addresses in stored log documents. Replacing is leftmost
 * and non-overlapping, as a global regular expression replaces; the result holds no match of
 * either pattern, so a second run changes nothing.
 */
module Redaction {
  import JsText
  import opened Wrappers
  import opened Replacing

  // ---------------------------------------------------------------- the two patterns

  predicate IsLetter(c: char) { 'A' <= c <= 'Z' || 'a' <= c <= 'z' }

  predicate IsDomain(c: char) { IsLetter(c) || '0' <= c <= '9' || c == '.' || c == '-' }

  predicate IsLocal(c: char) { IsDomain(c) || c == '_' || c == '%' || c == '+' }

  /** The first n characters of s are all of a class. */
  predicate All(s: string, n: nat, class_: char -> bool) {
    n <= |s| && forall i :: 0 <= i < n ==> class_(s[i])
  }

  /** A reset key starts here: 64 hex digits in lower case. */
  predicate KeyAt(s: string) {
    |s| >= 64 && forall i :: 0 <= i < 64 ==> '0' <= s[i] <= '9' || 'a' <= s[i] <= 'f'
  }

  /** What an address may hold before its at sign: letters, digits and five marks. */
  predicate IsAddressChar(c: char) {
    || 'a' <= c <= 'z' || 'A' <= c <= 'Z' || '0' <= c <= '9'
    || c == '.' || c == '_' || c == '%' || c == '+' || c == '-'
  }

  predicate IsHostChar(c: char) { 'a' <= c <= 'z' || 'A' <= c <= 'Z' || '0' <= c <= '9' || c == '.' || c == '-' }

  /** An e-mail address with a local part of n characters and a domain of k before its last
      dot occupies the first m characters. */
  predicate EmailShape(s: string, n: nat, k: nat, m: nat) {
    && 0 < n && 0 < k && n + k + 4 <= m <= |s|
    && (forall i :: 0 <= i < n ==> IsAddressChar(s[i]))
    && s[n] == '@'
    && (forall i :: n < i <= n + k ==> IsHostChar(s[i]))
    && s[n + 1 + k] == '.'
    && (forall i :: n + k + 2 <= i < m ==> 'a' <= s[i] <= 'z' || 'A' <= s[i] <= 'Z')
  }

  /** Some prefix of s is an e-mail address. */
  ghost predicate EmailAt(s: string) {
    exists n: nat, k: nat, m: nat :: EmailShape(s, n, k, m)
  }

  function Run(s: string, class_: char -> bool): (n: nat)
    ensures All(s, n, class_)
    ensures n < |s| ==> !class_(s[n])
  {
    if s == "" || !class_(s[0]) then 0 else 1 + Run(s[1..], class_)
  }

  /** The largest domain length up to k that a dot and two letters follow; 0 when there is none. */
  function LastDot(s: string, k: nat): (r: nat)
    requires k <= |s|
    ensures r <= k
    ensures r > 0 ==> DotLetters(s, r)
    ensures forall j :: r < j <= k ==> !DotLetters(s, j)
  {
    if k == 0 then 0 else if DotLetters(s, k) then k else LastDot(s, k - 1)
  }

  predicate DotLetters(s: string, k: nat) {
    k + 3 <= |s| && s[k] == '.' && IsLetter(s[k + 1]) && IsLetter(s[k + 2])
  }

  /** The regular expression's match at the start of s, with its backtracking order: the longest
      local part, then the longest domain, then the longest ending. */
  function MatchEmail(s: string): Option<nat> {
    var n := Run(s, IsLocal);
    if n == 0 || n >= |s| || s[n] != '@' then None else
      var domain := s[n + 1..];
      var k := LastDot(domain, Run(domain, IsDomain));
      if k == 0 then None else Some(n + 1 + k + 1 + Run(domain[k + 1..], IsLetter))
  }

  lemma {:induction false} RunReaches(s: string, class_: char -> bool, k: nat)
    requires All(s, k, class_)
    ensures k <= Run(s, class_)
  {
    if k > 0 {
      RunReaches(s[1..], class_, k - 1);
    }
  }

  lemma RunIs(s: string, class_: char -> bool, n: nat)
    requires All(s, n, class_) && (n < |s| ==> !class_(s[n]))
    ensures Run(s, class_) == n
  {
    RunReaches(s, class_, n);
  }

  lemma EmailAtMatches(s: string, n: nat, k: nat, m: nat)
    requires EmailShape(s, n, k, m)
    ensures MatchEmail(s).Some?
  {
    RunIs(s, IsLocal, n);
    var domain, letters := s[n + 1..], s[n + k + 2..];
    assert letters[0] == s[n + k + 2] && letters[1] == s[n + k + 3];
    assert DotLetters(domain, k);
    RunReaches(domain, IsDomain, k);
  }

  lemma MatchIsEmail(s: string) returns (n: nat, k: nat)
    requires MatchEmail(s).Some?
    ensures EmailShape(s, n, k, MatchEmail(s).value)
  {
    n := Run(s, IsLocal);
    var domain := s[n + 1..];
    k := LastDot(domain, Run(domain, IsDomain));
    var letters := domain[k + 1..];
    assert letters[0] == domain[k + 1] && letters[1] == domain[k + 2];
    assert Run(letters, IsLetter) >= 2;
    assert s[n + k + 2..] == letters;
    assert forall i :: 0 <= i < Run(domain, IsDomain) ==> s[n + 1 + i] == domain[i];
    assert forall i :: 0 <= i < Run(letters, IsLetter) ==> s[n + k + 2 + i] == letters[i];
  }

  /** Backtracking is complete: it finds a match exactly where there is one. */
  lemma MatchIffEmailAt(s: string)
    ensures MatchEmail(s).Some? <==> EmailAt(s)
    ensures MatchEmail(s).Some? ==> 0 < MatchEmail(s).value <= |s|
  {
    if EmailAt(s) {
      var n: nat, k: nat, m: nat :| EmailShape(s, n, k, m);
      EmailAtMatches(s, n, k, m);
    }
    if MatchEmail(s).Some? {
      var n, k := MatchIsEmail(s);
    }
  }

  // ---------------------------------------------------------------- replacing

  const KEY_MARKER := "[REDACTED-RESET_KEY]"
  const EMAIL_MARKER := "[REDACTED-EMAIL]"

  const KEY_LENGTH := 64

  function MatchKey(s: string): Option<nat> { if All(s, KEY_LENGTH, JsText.IsHex) then Some(KEY_LENGTH) else None }

  lemma PatternsAreSound()
    ensures Sound(MatchKey) && Sound(MatchEmail)
  {
    forall s | MatchEmail(s).Some? ensures 0 < MatchEmail(s).value <= |s| {
      MatchIffEmailAt(s);
    }
  }

  function ReplaceKeys(s: string): string {
    PatternsAreSound();
    Replace(MatchKey, KEY_MARKER, s)
  }

  function ReplaceEmails(s: string): string {
    PatternsAreSound();
    Replace(MatchEmail, EMAIL_MARKER, s)
  }

  function RedactString(s: string): string { ReplaceEmails(ReplaceKeys(s)) }

  /** No reset key starts anywhere in s. */
  ghost predicate NoKey(s: string) { Nowhere(KeyAt, s) }

  /** No e-mail address starts anywhere in s. */
  ghost predicate NoEmail(s: string) { Nowhere(s' => EmailAt(s'), s) }

  // ---------------------------------------------------------------- no match survives

  lemma ShapeOnPrefix(s: string, t: string, n: nat, k: nat, m: nat)
    requires EmailShape(t, n, k, m) && m <= |s| && forall i :: 0 <= i < m ==> s[i] == t[i]
    ensures EmailShape(s, n, k, m)
  {
  }

  lemma ShapeHasNoBracket(t: string, n: nat, k: nat, m: nat)
    requires EmailShape(t, n, k, m)
    ensures forall i :: 0 <= i < m ==> t[i] != '['
  {
  }

  lemma KeysAreLocal()
    ensures IsDecided(KeyAt)
  {
    forall t | KeyAt(t) ensures DecidedBy(KeyAt, t, 64) {
    }
  }

  lemma EmailsAreLocal(at: string -> bool)
    requires forall s :: at(s) <==> EmailAt(s)
    ensures IsDecided(at)
  {
    forall t | at(t) ensures exists m: nat :: DecidedBy(at, t, m) {
      var n: nat, k: nat, m: nat :| EmailShape(t, n, k, m);
      ShapeHasNoBracket(t, n, k, m);
      forall s: string | m <= |s| && (forall i :: 0 <= i < m ==> s[i] == t[i]) ensures at(s) {
        ShapeOnPrefix(s, t, n, k, m);
      }
      assert DecidedBy(at, t, m);
    }
  }

  /** A marker ends in a bracket within reach, so no reset key can run through it. */
  lemma MarkerBlocksKeys(marker: string)
    requires marker != "" && |marker| <= 64 && marker[|marker| - 1] == ']'
    ensures Blocks(marker, KeyAt)
  {
    forall j, rest: string | 0 <= j < |marker| ensures !KeyAt(marker[j..] + rest) {
      var s := marker[j..] + rest;
      assert s[|marker| - 1 - j] == ']';
    }
  }

  lemma NotEmailThrough(marker: string, rest: string)
    requires marker != "" && marker[|marker| - 1] == ']' && forall i :: 0 <= i < |marker| ==> marker[i] != '@'
    ensures !EmailAt(marker + rest)
  {
    var s := marker + rest;
    forall n: nat, k: nat, m: nat ensures !EmailShape(s, n, k, m) {
      if n < |marker| {
        assert n < |s| && s[n] == marker[n];
      } else {
        assert s[|marker| - 1] == ']' && !IsAddressChar(']');
      }
    }
  }

  lemma EmailMarkerBlocksEmails(at: string -> bool)
    requires forall s :: at(s) <==> EmailAt(s)
    ensures Blocks(EMAIL_MARKER, at)
  {
    forall j, rest: string | 0 <= j < |EMAIL_MARKER| ensures !at(EMAIL_MARKER[j..] + rest) {
      NotEmailThrough(EMAIL_MARKER[j..], rest);
    }
  }

  lemma KeysGone(s: string)
    ensures NoKey(ReplaceKeys(s))
  {
    PatternsAreSound();
    KeysAreLocal();
    MarkerBlocksKeys(KEY_MARKER);
    Gone(MatchKey, KEY_MARKER, KeyAt, s);
  }

  /** The second replacement never re-creates a match of the first. */
  lemma EmailsKeepNoKey(s: string)
    requires NoKey(s)
    ensures NoKey(ReplaceEmails(s))
  {
    PatternsAreSound();
    KeysAreLocal();
    MarkerBlocksKeys(EMAIL_MARKER);
    Gone(MatchEmail, EMAIL_MARKER, KeyAt, s);
  }

  lemma NoEmailIff(s: string, at: string -> bool)
    requires forall s' :: at(s') <==> EmailAt(s')
    ensures NoEmail(s) <==> Nowhere(at, s)
  {
  }

  lemma EmailsGone(s: string)
    ensures NoEmail(ReplaceEmails(s))
  {
    var at := s' => EmailAt(s');
    PatternsAreSound();
    EmailsAreLocal(at);
    EmailMarkerBlocksEmails(at);
    forall i | 0 <= i <= |s| && MatchEmail(s[i..]).None? ensures !at(s[i..]) {
      MatchIffEmailAt(s[i..]);
    }
    Gone(MatchEmail, EMAIL_MARKER, at, s);
    NoEmailIff(ReplaceEmails(s), at);
  }

  /** Clean text holds no match of either pattern. */
  ghost predicate Clean(s: string) { NoKey(s) && NoEmail(s) }

  /** Main result on texts: redaction leaves no match of either pattern, whatever the text. */
  lemma RedactedIsClean(s: string)
    ensures Clean(RedactString(s))
  {
    KeysGone(s);
    EmailsKeepNoKey(ReplaceKeys(s));
    EmailsGone(ReplaceKeys(s));
  }

  // ---------------------------------------------------------------- counting

  function CountKeys(s: string): nat {
    PatternsAreSound();
    Count(MatchKey, s)
  }

  function CountEmails(s: string): nat {
    PatternsAreSound();
    Count(MatchEmail, s)
  }

  lemma KeysCountedIff(s: string)
    ensures CountKeys(s) == 0 <==> NoKey(s)
  {
    PatternsAreSound();
    NothingFound(MatchKey, KEY_MARKER, s);
  }

  lemma EmailsCountedIff(s: string)
    ensures CountEmails(s) == 0 <==> NoEmail(s)
  {
    PatternsAreSound();
    NothingFound(MatchEmail, EMAIL_MARKER, s);
    forall i | 0 <= i <= |s| ensures MatchEmail(s[i..]).None? <==> !EmailAt(s[i..]) {
      MatchIffEmailAt(s[i..]);
    }
  }

  /** The scan reports no hit exactly on clean text. */
  lemma CountsZeroIffClean(s: string)
    ensures CountKeys(s) + CountEmails(s) == 0 <==> Clean(s)
    ensures CountKeys(s) == 0 <==> NoKey(s)
  {
    KeysCountedIff(s);
    EmailsCountedIff(s);
  }

  lemma CleanUnchanged(s: string)
    requires Clean(s)
    ensures ReplaceKeys(s) == s && ReplaceEmails(s) == s
  {
    CountsZeroIffClean(s);
    PatternsAreSound();
    NothingFound(MatchKey, KEY_MARKER, s);
    NothingFound(MatchEmail, EMAIL_MARKER, s);
  }

  /** A second redaction changes nothing. */
  lemma RedactIdempotent(s: string)
    ensures RedactString(RedactString(s)) == RedactString(s)
  {
    RedactedIsClean(s);
    CleanUnchanged(RedactString(s));
  }

  // ---------------------------------------------------------------- what is kept

  ghost predicate IsEmail(text: string) {
    exists n: nat, k: nat :: EmailShape(text, n, k, |text|)
  }

  lemma CutKeyIsKey(text: string)
    requires IsMatch(MatchKey, text)
    ensures |text| == 64 && KeyAt(text)
  {
  }

  lemma CutEmailIsEmail(text: string)
    requires IsMatch(MatchEmail, text)
    ensures IsEmail(text)
  {
    var s :| MatchEmail(s).Some? && MatchEmail(s).value <= |s| && text == s[..MatchEmail(s).value];
    var n, k := MatchIsEmail(s);
    ShapeOnPrefix(text, s, n, k, |text|);
  }

  /** Every character outside the matches is kept, in order; only whole reset keys are cut. */
  lemma KeysKeepTheRest(s: string) returns (segments: seq<Segment>)
    ensures Original(segments) == s && Rendered(segments, "[REDACTED-RESET_KEY]") == ReplaceKeys(s)
    ensures forall i :: 0 <= i < |segments| && segments[i].Cut? ==> |segments[i].text| == 64 && KeyAt(segments[i].text)
  {
    PatternsAreSound();
    segments := KeepTheRest(MatchKey, KEY_MARKER, s);
    forall i | 0 <= i < |segments| && segments[i].Cut? ensures |segments[i].text| == 64 && KeyAt(segments[i].text) {
      CutKeyIsKey(segments[i].text);
    }
  }

  /** Every character outside the matches is kept, in order; only whole e-mail addresses are cut. */
  lemma EmailsKeepTheRest(s: string) returns (segments: seq<Segment>)
    ensures Original(segments) == s && Rendered(segments, "[REDACTED-EMAIL]") == ReplaceEmails(s)
    ensures forall i :: 0 <= i < |segments| && segments[i].Cut? ==> IsEmail(segments[i].text)
  {
    PatternsAreSound();
    segments := KeepTheRest(MatchEmail, EMAIL_MARKER, s);
    forall i | 0 <= i < |segments| && segments[i].Cut? ensures IsEmail(segments[i].text) {
      CutEmailIsEmail(segments[i].text);
    }
  }

  // ---------------------------------------------------------------- documents

  datatype Item = Text(text: string) | OtherItem(json: string)

  datatype Field = TextField(text: string) | ListField(items: seq<Item>) | OtherField(json: string)

  /** A stored document; None stands for a value that is not an object. */
  type Doc = map<string, Field>

  predicate IsPiiField(key: string) { key == "message" || key == "flags" }

  function RedactItem(i: Item): Item { if i.Text? then Text(RedactString(i.text)) else i }

  function RedactField(f: Field): Field {
    match f
    case TextField(t) => TextField(RedactString(t))
    case ListField(items) => ListField(seq(|items|, i requires 0 <= i < |items| => RedactItem(items[i])))
    case OtherField(_) => f
  }

  ghost predicate CleanField(f: Field) {
    match f
    case TextField(t) => Clean(t)
    case ListField(items) => forall i :: 0 <= i < |items| && items[i].Text? ==> Clean(items[i].text)
    case OtherField(_) => true
  }

  ghost predicate CleanDoc(doc: Doc) {
    ("message" in doc ==> CleanField(doc["message"])) && ("flags" in doc ==> CleanField(doc["flags"]))
  }

  function RedactKey(key: string, f: Field): Field { if IsPiiField(key) then RedactField(f) else f }

  function Overlay(doc: Doc): Doc { map key | key in doc :: RedactKey(key, doc[key]) }

  /** The document a changed redaction writes. */
  function RedactedDoc(doc: Doc, at: string): Doc {
    Overlay(doc)["redacted_by" := TextField("SEC-PII-02")]["redacted_at" := TextField(at)]
  }

  /** A text matches when either pattern is found in it. */
  method MatchAny(s: string) returns (found: bool)
    ensures found <==> !Clean(s)
  {
    var i := 0;
    while i < |s|
      invariant i <= |s|
      invariant forall j :: 0 <= j < i ==> !KeyAt(s[j..]) && !EmailAt(s[j..])
    {
      MatchIffEmailAt(s[i..]);
      if MatchKey(s[i..]).Some? || MatchEmail(s[i..]).Some? {
        return true;
      }
      i := i + 1;
    }
    assert s[|s|..] == "";
    return false;
  }

  method FieldMatches(f: Field) returns (found: bool)
    ensures found <==> !CleanField(f)
  {
    match f
    case TextField(t) => found := MatchAny(t);
    case ListField(items) =>
      for i := 0 to |items|
        invariant forall j :: 0 <= j < i && items[j].Text? ==> Clean(items[j].text)
      {
        if items[i].Text? {
          var hit := MatchAny(items[i].text);
          if hit {
            return true;
          }
        }
      }
      found := false;
    case OtherField(_) => found := false;
  }

  method ContainsRawPII(doc: Option<Doc>) returns (found: bool)
    ensures found <==> doc.Some? && !CleanDoc(doc.value)
  {
    if doc == None {
      return false;
    }
    var fields := ["message", "flags"];
    for i := 0 to |fields|
      invariant forall j :: 0 <= j < i && fields[j] in doc.value ==> CleanField(doc.value[fields[j]])
    {
      if fields[i] in doc.value {
        var hit := FieldMatches(doc.value[fields[i]]);
        if hit {
          return true;
        }
      }
    }
    assert fields[0] == "message" && fields[1] == "flags";
    return false;
  }

  method RedactDoc(doc: Option<Doc>, at: string) returns (changed: bool, next: Option<Doc>)
    ensures changed <==> doc.Some? && !CleanDoc(doc.value)
    ensures next == if changed then Some(RedactedDoc(doc.value, at)) else doc
  {
    var raw := ContainsRawPII(doc);
    if !raw {
      return false, doc;
    }
    var out: Doc := map[];
    var keys := doc.value.Keys;
    while keys != {}
      invariant keys <= doc.value.Keys
      invariant out.Keys == doc.value.Keys - keys
      invariant forall key :: key in out ==> out[key] == RedactKey(key, doc.value[key])
      decreases |keys|
    {
      var key :| key in keys;
      out := out[key := RedactKey(key, doc.value[key])];
      keys := keys - {key};
    }
    assert out == Overlay(doc.value);
    out := out["redacted_by" := TextField("SEC-PII-02")];
    out := out["redacted_at" := TextField(at)];
    return true, Some(out);
  }

  lemma RedactedFieldIsClean(f: Field)
    ensures CleanField(RedactField(f))
  {
    match f
    case TextField(t) => RedactedIsClean(t);
    case ListField(items) =>
      forall i | 0 <= i < |items| && items[i].Text? ensures Clean(RedactString(items[i].text)) {
        RedactedIsClean(items[i].text);
      }
    case OtherField(_) =>
  }

  /** Every text of the field is redacted, and nothing else of it changes. */
  predicate IsRedacted(f: Field, g: Field) {
    match f
    case TextField(t) => g == TextField(ReplaceEmails(ReplaceKeys(t)))
    case ListField(items) =>
      && g.ListField? && |g.items| == |items|
      && forall i :: 0 <= i < |items| ==>
           g.items[i] == if items[i].Text? then Text(ReplaceEmails(ReplaceKeys(items[i].text))) else items[i]
    case OtherField(_) => g == f
  }

  /**
   * Main result on documents: what a redaction writes is clean, so the next run reports it
   * unchanged; and every field but message, flags and the two audit fields is as it was.
   */
  lemma RedactionReachesFixpoint(doc: Doc, at: string)
    ensures CleanDoc(RedactedDoc(doc, at))
    ensures RedactedDoc(doc, at).Keys == doc.Keys + {"redacted_by", "redacted_at"}
    ensures forall key :: key in doc && key !in {"message", "flags", "redacted_by", "redacted_at"} ==>
      RedactedDoc(doc, at)[key] == doc[key]
    ensures forall key :: key in doc && key in {"message", "flags"} ==> IsRedacted(doc[key], RedactedDoc(doc, at)[key])
    ensures RedactedDoc(doc, at)["redacted_by"] == TextField("SEC-PII-02")
    ensures RedactedDoc(doc, at)["redacted_at"] == TextField(at)
  {
    forall key | key in doc && IsPiiField(key) ensures CleanField(RedactField(doc[key])) {
      RedactedFieldIsClean(doc[key]);
    }
    assert "message" != "redacted_by" && "flags" != "redacted_by";
  }
}
