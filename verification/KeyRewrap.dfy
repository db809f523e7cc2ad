/**
 * Rewrapping the deploy keys to the latest Transit key version: each file is replaced by a
 * ciphertext of the plaintext that was read, after a check that it still holds those bytes. The
 * check and the rename are two steps, and what happens between them decides what is lost.
 */
module KeyRewrap {
  import opened JsText
  import opened Wrappers

  type Disk = map<string, string>

  // ---------------------------------------------------------------- file format

  const PREFIX := "vault:v"

  function DigitRun(s: string): (n: nat)
    ensures n <= |s| && AllDigits(s[..n]) && (n < |s| ==> !IsDigit(s[n]))
  {
    if s == "" || !IsDigit(s[0]) then 0 else
      var m := DigitRun(s[1..]);
      assert s[..m + 1] == [s[0]] + s[1..][..m];
      m + 1
  }

  predicate IsBase64(c: char) { 'A' <= c <= 'Z' || 'a' <= c <= 'z' || '0' <= c <= '9' || c == '+' || c == '/' }

  function DropPad(s: string, atMost: nat): string {
    if atMost > 0 && s != "" && s[|s| - 1] == '=' then DropPad(s[..|s| - 1], atMost - 1) else s
  }

  predicate IsBody(s: string) {
    var b := DropPad(s, 2);
    b != "" && forall i :: 0 <= i < |b| ==> IsBase64(b[i])
  }

  /** The Transit version of a file's text, when it is one Transit ciphertext line. */
  function VersionOf(text: string): Option<nat> {
    var t := Trim(text);
    if |t| < |PREFIX| || t[..|PREFIX|] != PREFIX then None else
      var rest := t[|PREFIX|..];
      var n := DigitRun(rest);
      if n == 0 || rest[0] == '0' || n >= |rest| || rest[n] != ':' || !IsBody(rest[n + 1..]) then None
      else
        NumberNat(rest[..n]);
        Some(Number(rest[..n]))
  }

  /** A transit file as the scan found it. */
  datatype Entry = Entry(path: string, pubExisted: bool, content: string, version: nat)

  /** The transit files of a directory listing, in order. */
  function Scan(paths: seq<string>, disk: Disk, pubs: set<string>): seq<Entry> {
    if paths == [] then [] else
      var n := |paths| - 1;
      Scan(paths[..n], disk, pubs) +
        if paths[n] in disk && VersionOf(disk[paths[n]]).Some?
        then [Entry(paths[n], paths[n] in pubs, disk[paths[n]], VersionOf(disk[paths[n]]).value)] else []
  }

  // ---------------------------------------------------------------- what the world answers

  datatype Fresh = Fresh(version: int, ciphertext: string)

  /** What other processes write and remove meanwhile. */
  datatype Writes = Writes(put: Disk, gone: set<string>)

  const NO_WRITES := Writes(map[], {})

  function Meanwhile(disk: Disk, w: Writes): Disk { disk - w.gone + w.put }

  /** Transit's and the file system's answers for one entry, and what other processes do before the
      unchanged check, and between that check and the rename. */
  datatype Answers = Answers(rewrap: Result<Fresh, string>, decryptFails: Option<string>, before: Writes,
                             between: Writes, writeOk: bool, listed: bool, pubNow: bool, renameOk: bool, pubAfter: bool)

  /** Service-level failures: asking again with the next key cannot help. */
  predicate Aborts(reason: string) {
    reason in {"unreachable", "sealed", "tls", "not_configured", "denied"}
  }

  // ---------------------------------------------------------------- one entry

  datatype Replace = Replaced | ChangedMeanwhile | WriteFailed

  predicate UnchangedSinceScan(e: Entry, disk: Disk, a: Answers) {
    && (e.pubExisted ==> a.listed)
    && a.pubNow == e.pubExisted
    && e.path in disk && disk[e.path] == e.content
  }

  /** The disk at the unchanged check, and at the rename. */
  function AtCheck(disk: Disk, a: Answers): Disk { Meanwhile(disk, a.before) }

  function AtRename(disk: Disk, a: Answers): Disk { Meanwhile(AtCheck(disk, a), a.between) }

  function ReplaceFile(e: Entry, ciphertext: string, disk: Disk, a: Answers): (Disk, Replace) {
    if !a.writeOk then (disk, WriteFailed)
    else if !UnchangedSinceScan(e, AtCheck(disk, a), a) then (AtCheck(disk, a), ChangedMeanwhile)
    else if !a.renameOk then (AtRename(disk, a), WriteFailed)
    else if e.pubExisted && !a.pubAfter then (AtRename(disk, a) - {e.path}, ChangedMeanwhile)
    else (AtRename(disk, a)[e.path := ciphertext + "\n"], Replaced)
  }

  type Decrypt = string -> string

  predicate GoodFresh(f: Fresh, latest: nat) {
    f.version == latest && PREFIX + Digits(latest) + ":" <= f.ciphertext
  }

  datatype Report = Report(rewrapped: nat, atLatest: nat, changed: nat, failures: seq<string>, aborted: Option<string>)

  function Fail(r: Report, cause: string): Report { r.(failures := r.failures + [cause]) }

  /** One entry of the run. */
  function Step(plain: Decrypt, latest: nat, e: Entry, a: Answers, disk: Disk, r: Report): (Disk, Report) {
    if r.aborted.Some? then (disk, Fail(r, "not_attempted"))
    else if e.version >= latest then (disk, r.(atLatest := r.atLatest + 1))
    else match a.rewrap
      case Err(reason) => (disk, Fail(r, reason).(aborted := if Aborts(reason) then Some(reason) else None))
      case Ok(f) =>
        if !GoodFresh(f, latest) then (disk, Fail(r, "verify_mismatch"))
        else if a.decryptFails.Some? then
          var why := a.decryptFails.value;
          (disk, Fail(r, why).(aborted := if Aborts(why) then a.decryptFails else None))
        else if plain(Trim(e.content)) != plain(f.ciphertext) then (disk, Fail(r, "verify_mismatch"))
        else
          var (disk', outcome) := ReplaceFile(e, f.ciphertext, disk, a);
          (disk', Tally(r, outcome))
  }

  /** The counter an attempt to replace adds to. */
  function Tally(r: Report, outcome: Replace): Report {
    match outcome
    case Replaced => r.(rewrapped := r.rewrapped + 1)
    case ChangedMeanwhile => r.(changed := r.changed + 1)
    case WriteFailed => Fail(r, "write_failed")
  }

  function Steps(plain: Decrypt, latest: nat, entries: seq<Entry>, answers: seq<Answers>, disk: Disk,
                 r: Report): (Disk, Report)
    requires |entries| == |answers|
  {
    if entries == [] then (disk, r) else
      var n := |entries| - 1;
      var (d, s) := Steps(plain, latest, entries[..n], answers[..n], disk, r);
      Step(plain, latest, entries[n], answers[n], d, s)
  }

  const NOTHING := Report(0, 0, 0, [], None)

  /** The whole run: latest is learned first, and failing to learn it aborts everything. */
  function Rewrap(plain: Decrypt, latest: Result<nat, string>, entries: seq<Entry>, answers: seq<Answers>,
                  disk: Disk): (Disk, Report)
    requires |entries| == |answers|
  {
    match latest
    case Ok(n) => Steps(plain, n, entries, answers, disk, NOTHING)
    case Err(reason) => Steps(plain, 0, entries, answers, disk,
                              NOTHING.(aborted := if entries == [] then None else Some(reason)))
  }

  // ---------------------------------------------------------------- the script's loop

  class Migration {
    var disk: Disk
    var rewrapped: nat
    var atLatest: nat
    var changed: nat
    var failed: nat
    var failures: seq<string>
    var aborted: Option<string>
    const plain: Decrypt

    constructor (disk: Disk, plain: Decrypt)
      ensures State() == (disk, NOTHING) && failed == 0 && this.plain == plain
    {
      this.disk, this.plain := disk, plain;
      rewrapped, atLatest, changed, failed, failures, aborted := 0, 0, 0, 0, [], None;
    }

    function State(): (Disk, Report)
      reads this
    {
      (disk, Report(rewrapped, atLatest, changed, failures, aborted))
    }

    predicate Counted()
      reads this
    {
      failed == |failures|
    }

    method RecordFailure(cause: string)
      requires Counted()
      modifies `failed, `failures
      ensures Counted() && failures == old(failures) + [cause]
    {
      failed := failed + 1;
      failures := failures + [cause];
    }

    /** Temp file, check, rename, and a look back at the public key. */
    method Replace(e: Entry, ciphertext: string, a: Answers) returns (outcome: Replace)
      modifies `disk
      ensures (disk, outcome) == ReplaceFile(e, ciphertext, old(disk), a)
    {
      if !a.writeOk {
        return WriteFailed;
      }
      disk := Meanwhile(disk, a.before);
      if !UnchangedSinceScan(e, disk, a) {
        return ChangedMeanwhile;
      }
      disk := Meanwhile(disk, a.between);
      if !a.renameOk {
        return WriteFailed;
      }
      disk := disk[e.path := ciphertext + "\n"];
      if e.pubExisted && !a.pubAfter {
        disk := disk - {e.path};
        assert disk == AtRename(old(disk), a) - {e.path};
        return ChangedMeanwhile;
      }
      return Replaced;
    }

    method One(latest: nat, e: Entry, a: Answers)
      requires Counted()
      modifies this
      ensures Counted() && State() == Step(plain, latest, e, a, old(disk), old(State()).1)
    {
      if aborted.Some? {
        RecordFailure("not_attempted");
        return;
      }
      if e.version >= latest {
        atLatest := atLatest + 1;
        return;
      }
      if a.rewrap.Err? {
        RecordFailure(a.rewrap.error);
        if Aborts(a.rewrap.error) {
          aborted := Some(a.rewrap.error);
        }
        return;
      }
      var f := a.rewrap.value;
      if !GoodFresh(f, latest) {
        RecordFailure("verify_mismatch");
        return;
      }
      if a.decryptFails.Some? {
        RecordFailure(a.decryptFails.value);
        if Aborts(a.decryptFails.value) {
          aborted := a.decryptFails;
        }
        return;
      }
      if plain(Trim(e.content)) != plain(f.ciphertext) {
        RecordFailure("verify_mismatch");
        return;
      }
      var outcome := Replace(e, f.ciphertext, a);
      Count(outcome);
    }

    method Count(outcome: Replace)
      requires Counted()
      modifies this
      ensures Counted() && State() == (old(disk), Tally(old(State()).1, outcome))
    {
      match outcome {
        case Replaced => rewrapped := rewrapped + 1;
        case ChangedMeanwhile => changed := changed + 1;
        case WriteFailed => RecordFailure("write_failed");
      }
    }

    method Run(latest: Result<nat, string>, entries: seq<Entry>, answers: seq<Answers>)
      requires |entries| == |answers|
      requires State().1 == NOTHING && failed == 0
      modifies this
      ensures Counted() && State() == Rewrap(plain, latest, entries, answers, old(disk))
    {
      if |entries| == 0 {
        return;
      }
      var n := 0;
      if latest.Ok? {
        n := latest.value;
      } else {
        aborted := Some(latest.error);
      }
      ghost var start := State().1;
      for i := 0 to |entries|
        invariant Counted()
        invariant State() == Steps(plain, n, entries[..i], answers[..i], old(disk), start)
      {
        assert entries[..i + 1][..i] == entries[..i] && answers[..i + 1][..i] == answers[..i];
        One(n, entries[i], answers[i]);
      }
      assert entries[..|entries|] == entries && answers[..|entries|] == answers;
    }
  }

  // ---------------------------------------------------------------- conservation

  function Accounted(r: Report): nat { r.rewrapped + r.atLatest + r.changed + |r.failures| }

  lemma {:induction false} StepsAccount(plain: Decrypt, latest: nat, entries: seq<Entry>, answers: seq<Answers>,
                                        disk: Disk, r: Report)
    requires |entries| == |answers|
    ensures Accounted(Steps(plain, latest, entries, answers, disk, r).1) == Accounted(r) + |entries|
  {
    if entries != [] {
      var n := |entries| - 1;
      StepsAccount(plain, latest, entries[..n], answers[..n], disk, r);
    }
  }

  /** Main result: whatever Transit and the file system answer, every transit file found is
      counted exactly once. */
  lemma EveryFileIsCounted(plain: Decrypt, latest: Result<nat, string>, entries: seq<Entry>, answers: seq<Answers>,
                           disk: Disk)
    requires |entries| == |answers|
    ensures Accounted(Rewrap(plain, latest, entries, answers, disk).1) == |entries|
  {
    match latest
    case Ok(n) => StepsAccount(plain, n, entries, answers, disk, NOTHING);
    case Err(reason) => StepsAccount(plain, 0, entries, answers, disk,
                                     NOTHING.(aborted := if entries == [] then None else Some(reason)));
  }

  /** After an abort nothing is written, and every remaining file counts as not attempted. */
  lemma {:induction false} NothingAfterAbort(plain: Decrypt, latest: nat, entries: seq<Entry>, answers: seq<Answers>,
                                             disk: Disk, r: Report)
    requires |entries| == |answers| && r.aborted.Some?
    ensures var (disk', r') := Steps(plain, latest, entries, answers, disk, r);
      && disk' == disk
      && r' == r.(failures := r.failures + seq(|entries|, _ => "not_attempted"))
  {
    var none := seq(|entries|, _ => "not_attempted");
    if entries == [] {
      assert r.failures + none == r.failures;
    } else {
      var n := |entries| - 1;
      NothingAfterAbort(plain, latest, entries[..n], answers[..n], disk, r);
      assert r.failures + none == r.failures + seq(n, _ => "not_attempted") + ["not_attempted"];
    }
  }

  /** The run after a given entry starts from where that entry left it. */
  lemma {:induction false} StepsConcat(plain: Decrypt, latest: nat, a: seq<Entry>, b: seq<Entry>, x: seq<Answers>,
                                       y: seq<Answers>,
                                       disk: Disk, r: Report)
    requires |a| == |x| && |b| == |y|
    ensures var (d, s) := Steps(plain, latest, a, x, disk, r);
      Steps(plain, latest, a + b, x + y, disk, r) == Steps(plain, latest, b, y, d, s)
    decreases |b|
  {
    if b == [] {
      assert a + b == a && x + y == x;
    } else {
      var n := |b| - 1;
      assert (a + b)[..|a + b| - 1] == a + b[..n] && (x + y)[..|x + y| - 1] == x + y[..n];
      StepsConcat(plain, latest, a, b[..n], x, y[..n], disk, r);
    }
  }

  // ---------------------------------------------------------------- what is written

  /** text is a line holding a ciphertext of the latest version with the plaintext of was. */
  predicate RewrapOf(plain: Decrypt, latest: nat, was: string, text: string) {
    && text != "" && text[|text| - 1] == '\n'
    && plain(text[..|text| - 1]) == plain(Trim(was))
    && PREFIX + Digits(latest) + ":" <= text[..|text| - 1]
  }

  /** A step that counts a rewrap found the bytes of the scan at its check, put a rewrap of them in
      their place, and left every other file as others had. */
  lemma RewrapKeepsPlaintext(plain: Decrypt, latest: nat, e: Entry, a: Answers, disk: Disk, r: Report)
    requires Step(plain, latest, e, a, disk, r).1.rewrapped > r.rewrapped
    ensures var disk' := Step(plain, latest, e, a, disk, r).0;
      && e.path in AtCheck(disk, a) && AtCheck(disk, a)[e.path] == e.content
      && e.path in disk' && RewrapOf(plain, latest, e.content, disk'[e.path])
      && disk' == AtRename(disk, a)[e.path := disk'[e.path]]
  {
    var c := a.rewrap.value.ciphertext;
    assert Step(plain, latest, e, a, disk, r).0[e.path] == c + "\n";
    assert (c + "\n")[..|c + "\n"| - 1] == c;
  }

  /** The line that replaced a file holds the key that the file held. */
  predicate KeyKept(plain: Decrypt, was: Disk, p: string, text: string) {
    p in was && text != "" && plain(text[..|text| - 1]) == plain(Trim(was[p]))
  }

  /** What others do between the check and the rename leaves the scanned key at its path. */
  predicate LeavesKey(plain: Decrypt, e: Entry, w: Writes) {
    if e.path in w.put then plain(Trim(w.put[e.path])) == plain(Trim(e.content)) else e.path !in w.gone
  }

  /** One step: a counted rewrap replaced a key by a ciphertext of that same key exactly when nobody
      removed it or put another key there between the check and the rename. */
  lemma RewrapKeepsKeyIff(plain: Decrypt, latest: nat, e: Entry, a: Answers, disk: Disk, r: Report)
    requires Step(plain, latest, e, a, disk, r).1.rewrapped > r.rewrapped
    ensures e.path in Step(plain, latest, e, a, disk, r).0
    ensures KeyKept(plain, AtRename(disk, a), e.path, Step(plain, latest, e, a, disk, r).0[e.path]) <==>
      LeavesKey(plain, e, a.between)
  {
    RewrapKeepsPlaintext(plain, latest, e, a, disk, r);
  }

  /** The race is real: whatever other key is put in place between the check and the rename, the run
      replaces it by a ciphertext of the old one and counts a rewrap. */
  lemma RaceLosesAKey(plain: Decrypt, latest: nat, e: Entry, f: Fresh, disk: Disk, r: Report, other: string)
    returns (a: Answers)
    requires r.aborted.None? && e.version < latest && e.path in disk && disk[e.path] == e.content
    requires GoodFresh(f, latest) && plain(f.ciphertext) == plain(Trim(e.content)) != plain(Trim(other))
    ensures var (disk', r') := Step(plain, latest, e, a, disk, r);
      && r' == r.(rewrapped := r.rewrapped + 1)
      && e.path in AtRename(disk, a) && AtRename(disk, a)[e.path] == other
      && e.path in disk' && disk'[e.path] == f.ciphertext + "\n"
      && !KeyKept(plain, AtRename(disk, a), e.path, disk'[e.path])
  {
    a := Answers(Ok(f), None, NO_WRITES, Writes(map[e.path := other], {}), true, true, e.pubExisted, true, true);
    assert UnchangedSinceScan(e, AtCheck(disk, a), a);
    RewrapKeepsKeyIff(plain, latest, e, a, disk, r);
  }

  /** Where the text of a file can come from: the start, another process, or a rewrap of the
      bytes scanned at that path. */
  predicate Explained(plain: Decrypt, latest: nat, entries: seq<Entry>, answers: seq<Answers>, disk: Disk, p: string,
                      text: string)
    requires |entries| == |answers|
  {
    || (p in disk && disk[p] == text)
    || (exists i :: 0 <= i < |answers| && Puts(answers[i], p, text))
    || (exists i :: 0 <= i < |entries| && entries[i].path == p && RewrapOf(plain, latest, entries[i].content, text))
  }

  predicate Puts(a: Answers, p: string, text: string) {
    (p in a.before.put && a.before.put[p] == text) || (p in a.between.put && a.between.put[p] == text)
  }

  lemma StepExplained(plain: Decrypt, latest: nat, e: Entry, a: Answers, disk: Disk, r: Report, p: string)
    ensures var disk' := Step(plain, latest, e, a, disk, r).0;
      p in disk' ==> || (p in disk && disk'[p] == disk[p]) || Puts(a, p, disk'[p])
                     || (p == e.path && RewrapOf(plain, latest, e.content, disk'[p]))
  {
    if Step(plain, latest, e, a, disk, r).1.rewrapped > r.rewrapped {
      RewrapKeepsPlaintext(plain, latest, e, a, disk, r);
    }
  }

  /** Main result: over a whole run, no key is replaced by anything but a ciphertext of its own
      plaintext: every text on the final disk was there at the start, was written by somebody
      else, or is a rewrap of the bytes scanned at that very path. */
  lemma {:induction false} NoKeyIsCorrupted(plain: Decrypt, latest: nat, entries: seq<Entry>, answers: seq<Answers>,
                                            disk: Disk, r: Report, p: string)
    requires |entries| == |answers|
    requires p in Steps(plain, latest, entries, answers, disk, r).0
    ensures Explained(plain, latest, entries, answers, disk, p, Steps(plain, latest, entries, answers, disk, r).0[p])
  {
    if entries != [] {
      var n := |entries| - 1;
      var (d, s) := Steps(plain, latest, entries[..n], answers[..n], disk, r);
      StepExplained(plain, latest, entries[n], answers[n], d, s, p);
      if p in d {
        NoKeyIsCorrupted(plain, latest, entries[..n], answers[..n], disk, r, p);
      }
    }
  }

  // ---------------------------------------------------------------- a second run

  lemma {:induction false} DigitRunIs(digits: string, rest: string)
    requires AllDigits(digits) && rest != "" && !IsDigit(rest[0])
    ensures DigitRun(digits + rest) == |digits|
  {
    if digits == "" {
      assert digits + rest == rest;
    } else {
      assert (digits + rest)[1..] == digits[1..] + rest;
      DigitRunIs(digits[1..], rest);
    }
  }

  lemma VersionNamed(latest: nat, text: string, tail: string)
    requires Trim(text) == PREFIX + (Digits(latest) + ":" + tail)
    ensures VersionOf(text).Some? ==> VersionOf(text).value == latest
  {
    NumberOfDigits(latest);
    var digits := Digits(latest);
    var rest := digits + ":" + tail;
    assert rest == digits + (":" + tail);
    DigitRunIs(digits, ":" + tail);
    assert Trim(text)[|PREFIX|..] == rest;
    assert rest[..|digits|] == digits;
  }

  /** What a rewrap writes is never older than the latest version when it is read back. */
  lemma WrittenIsCurrent(latest: nat, ciphertext: string)
    requires PREFIX + Digits(latest) + ":" <= ciphertext
    ensures VersionOf(ciphertext + "\n").Some? ==> VersionOf(ciphertext + "\n").value == latest
  {
    var head := PREFIX + Digits(latest) + ":";
    var text := ciphertext + "\n";
    assert head <= text;
    assert head[|head| - 1] == ':';
    TrimEndKeeps(text, head);
    var t := TrimEnd(text);
    assert head[0] == 'v' by { assert PREFIX[0] == 'v'; }
    assert Trim(text) == t;
    assert t == PREFIX + (Digits(latest) + ":" + t[|head|..]);
    VersionNamed(latest, text, t[|head|..]);
  }

  predicate Stale(latest: nat, disk: Disk, p: string) {
    p in disk && VersionOf(disk[p]).Some? && VersionOf(disk[p]).value < latest
  }

  predicate Clean(r: Report) { r.failures == [] && r.changed == 0 }

  /** A step without a failure makes no path stale, and leaves its own stale only if it was
      scanned as current. */
  lemma CleanStep(plain: Decrypt, latest: nat, e: Entry, a: Answers, disk: Disk, r: Report, p: string)
    requires a.before == a.between == NO_WRITES && Clean(Step(plain, latest, e, a, disk, r).1)
    ensures Clean(r)
    ensures Stale(latest, Step(plain, latest, e, a, disk, r).0, p) ==>
      Stale(latest, disk, p) && (p == e.path ==> e.version >= latest)
  {
    if Step(plain, latest, e, a, disk, r).1.rewrapped > r.rewrapped {
      WrittenIsCurrent(latest, a.rewrap.value.ciphertext);
      assert AtRename(disk, a) == disk;
    }
  }

  lemma {:induction false} CleanSteps(plain: Decrypt, latest: nat, entries: seq<Entry>, answers: seq<Answers>,
                                      disk: Disk, r: Report, p: string)
    requires |entries| == |answers| && forall i :: 0 <= i < |answers| ==>
      answers[i].before == answers[i].between == NO_WRITES
    requires Clean(Steps(plain, latest, entries, answers, disk, r).1)
    ensures Clean(r)
    ensures Stale(latest, Steps(plain, latest, entries, answers, disk, r).0, p) ==>
              Stale(latest, disk, p) && forall i :: 0 <= i < |entries| && entries[i].path == p ==>
                entries[i].version >= latest
  {
    if entries != [] {
      var n := |entries| - 1;
      var (d, s) := Steps(plain, latest, entries[..n], answers[..n], disk, r);
      CleanStep(plain, latest, entries[n], answers[n], d, s, p);
      CleanSteps(plain, latest, entries[..n], answers[..n], disk, r, p);
    }
  }

  /** The scan finds exactly the transit files listed, as they are on disk. */
  lemma {:induction false} ScanFinds(paths: seq<string>, disk: Disk, pubs: set<string>, p: string)
    ensures p in paths && p in disk && VersionOf(disk[p]).Some? ==>
              exists i :: 0 <= i < |Scan(paths, disk, pubs)| && Scan(paths, disk, pubs)[i].path == p
    ensures forall i :: 0 <= i < |Scan(paths, disk, pubs)| ==>
              var e := Scan(paths, disk, pubs)[i];
              e.path in paths && e.path in disk && e.content == disk[e.path] && VersionOf(e.content) == Some(e.version)
  {
    if paths != [] {
      var n := |paths| - 1;
      ScanFinds(paths[..n], disk, pubs, p);
      var before, all := Scan(paths[..n], disk, pubs), Scan(paths, disk, pubs);
      assert forall i :: 0 <= i < |before| ==> all[i] == before[i];
      if p == paths[n] && p in disk && VersionOf(disk[p]).Some? {
        assert all[|before|].path == p;
      }
    }
  }

  lemma {:induction false} CurrentEntriesAreKept(plain: Decrypt, latest: nat, entries: seq<Entry>,
                                                 answers: seq<Answers>, disk: Disk)
    requires |entries| == |answers| && forall i :: 0 <= i < |entries| ==> entries[i].version >= latest
    ensures Steps(plain, latest, entries, answers, disk, NOTHING) == (disk, NOTHING.(atLatest := |entries|))
  {
    if entries != [] {
      var n := |entries| - 1;
      CurrentEntriesAreKept(plain, latest, entries[..n], answers[..n], disk);
    }
  }

  /** Main result: a second run at the same latest version, after one that reported no failure
      and no change and met no other writer, rewraps nothing and writes nothing, whatever
      Transit would answer it. */
  lemma SecondRunIsIdle(plain: Decrypt, latest: nat, paths: seq<string>, disk: Disk, pubs: set<string>,
                        answers: seq<Answers>,
                        pubs': set<string>, answers': seq<Answers>)
    requires |Scan(paths, disk, pubs)| == |answers| && forall i :: 0 <= i < |answers| ==>
      answers[i].before == answers[i].between == NO_WRITES
    requires Clean(Rewrap(plain, Ok(latest), Scan(paths, disk, pubs), answers, disk).1)
    requires var disk' := Rewrap(plain, Ok(latest), Scan(paths, disk, pubs), answers, disk).0;
      |Scan(paths, disk', pubs')| == |answers'|
    ensures var disk' := Rewrap(plain, Ok(latest), Scan(paths, disk, pubs), answers, disk).0;
      var entries' := Scan(paths, disk', pubs');
      Rewrap(plain, Ok(latest), entries', answers', disk') == (disk', NOTHING.(atLatest := |entries'|))
  {
    var entries := Scan(paths, disk, pubs);
    var disk' := Steps(plain, latest, entries, answers, disk, NOTHING).0;
    var entries' := Scan(paths, disk', pubs');
    forall i | 0 <= i < |entries'| ensures entries'[i].version >= latest {
      var p := entries'[i].path;
      ScanFinds(paths, disk', pubs', p);
      ScanFinds(paths, disk, pubs, p);
      CleanSteps(plain, latest, entries, answers, disk, NOTHING, p);
    }
    CurrentEntriesAreKept(plain, latest, entries', answers', disk');
  }
}
