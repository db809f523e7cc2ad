/**
 * Whole rewrap runs against what others alone would have left: which keys a run loses.
 *
 * Next to the disk of the run goes a shadow that has only the other processes' writes. The run has
 * lost or replaced a key exactly where the two differ in the key a path holds.
 */
module KeyRewrapRuns {
  import opened JsText
  import opened Wrappers
  import opened KeyRewrap

  /** Transit answers a ciphertext without white space around it. */
  predicate Bare(a: Answers) {
    a.rewrap.Ok? ==> Trim(a.rewrap.value.ciphertext + "\n") == a.rewrap.value.ciphertext
  }

  /** The key a path holds. */
  function KeyAt(plain: Decrypt, disk: Disk, p: string): Option<string> {
    if p in disk then Some(plain(Trim(disk[p]))) else None
  }

  // ---------------------------------------------------------------- one step

  /** Transit answered a line of the latest version. */
  predicate IsFresh(f: Fresh, latest: nat) {
    f.version == latest && "vault:v" + Digits(latest) + ":" <= f.ciphertext
  }

  /** Before the rename the key is still listed and its public key as it was, and the file still holds
      the bytes scanned. */
  predicate AsScanned(e: Entry, disk: Disk, a: Answers) {
    && (e.pubExisted ==> a.listed && a.pubNow) && (!e.pubExisted ==> !a.pubNow)
    && e.path in disk && disk[e.path] == e.content
  }

  /** A reason after which asking again with the next key cannot help. */
  predicate EndsRun(reason: string) {
    || reason == "unreachable" || reason == "sealed" || reason == "tls" || reason == "not_configured"
    || reason == "denied"
  }

  /** The entry gets as far as a temporary file that holds its rewrap. */
  predicate Staged(plain: Decrypt, latest: nat, e: Entry, a: Answers, r: Report) {
    && r.aborted.None? && e.version < latest && a.rewrap.Ok? && IsFresh(a.rewrap.value, latest)
    && a.decryptFails.None? && plain(Trim(e.content)) == plain(a.rewrap.value.ciphertext) && a.writeOk
  }

  /** What others do during the step, as far as the step gets. */
  function OthersIn(plain: Decrypt, latest: nat, e: Entry, a: Answers, disk: Disk, r: Report): seq<Writes> {
    if !Staged(plain, latest, e, a, r) then []
    else if !AsScanned(e, AtCheck(disk, a), a) then [a.before]
    else [a.before, a.between]
  }

  function Apply(disk: Disk, ws: seq<Writes>): Disk
    decreases |ws|
  {
    if ws == [] then disk else Apply(Meanwhile(disk, ws[0]), ws[1..])
  }

  predicate Touch(ws: seq<Writes>, p: string) {
    exists w :: w in ws && (p in w.put || p in w.gone)
  }

  /** The step renames over its path. */
  predicate Renames(plain: Decrypt, latest: nat, e: Entry, a: Answers, disk: Disk, r: Report) {
    Staged(plain, latest, e, a, r) && AsScanned(e, AtCheck(disk, a), a) && a.renameOk
  }

  /** The step removes its path again, because the public key has gone. */
  predicate Withdraws(e: Entry, a: Answers) { e.pubExisted && !a.pubAfter }

  /** The step costs others a key: it rewrites a key that is no longer there, or takes away a file
      that is. */
  predicate Costs(plain: Decrypt, latest: nat, e: Entry, a: Answers, disk: Disk, r: Report) {
    Renames(plain, latest, e, a, disk, r) &&
      if Withdraws(e, a) then e.path in AtRename(disk, a) else !LeavesKey(plain, e, a.between)
  }

  lemma ApplyTwo(disk: Disk, v: Writes, w: Writes)
    ensures Apply(disk, []) == disk && Apply(disk, [v]) == Meanwhile(disk, v)
    ensures Apply(disk, [v, w]) == Meanwhile(Meanwhile(disk, v), w)
  {
    assert [v, w][1..] == [w] && [w][1..] == [] && [v][1..] == [];
    assert Apply(Meanwhile(disk, v), [w]) == Meanwhile(Meanwhile(disk, v), w);
  }

  /** A step is what others do, and the rename. */
  lemma StepIs(plain: Decrypt, latest: nat, e: Entry, a: Answers, disk: Disk, r: Report)
    ensures var d := Apply(disk, OthersIn(plain, latest, e, a, disk, r));
      Step(plain, latest, e, a, disk, r).0 ==
        if !Renames(plain, latest, e, a, disk, r) then d
        else if Withdraws(e, a) then d - {e.path}
        else d[e.path := a.rewrap.value.ciphertext + "\n"]
    ensures Renames(plain, latest, e, a, disk, r) ==>
      AtRename(disk, a) == Apply(disk, OthersIn(plain, latest, e, a, disk, r))
  {
    ApplyTwo(disk, a.before, a.between);
  }

  /**
   * What each step is counted as: rewrapped when it renames and does not withdraw; changed when the
   * check finds something else or the public key has gone; at latest when there is nothing to do; and
   * failed otherwise, for its reason. The run ends exactly at the five reasons that end it, from either
   * request.
   */
  lemma StepCounts(plain: Decrypt, latest: nat, e: Entry, a: Answers, disk: Disk, r: Report)
    ensures var r' := Step(plain, latest, e, a, disk, r).1;
      var staged, renames := Staged(plain, latest, e, a, r), Renames(plain, latest, e, a, disk, r);
      && r'.rewrapped == r.rewrapped + (if renames && !Withdraws(e, a) then 1 else 0)
      && r'.changed == r.changed
           + (if (staged && !AsScanned(e, AtCheck(disk, a), a)) || (renames && Withdraws(e, a)) then 1 else 0)
      && r'.atLatest == r.atLatest + (if r.aborted.None? && e.version >= latest then 1 else 0)
      && r'.failures == r.failures +
           (if r.aborted.Some? then ["not_attempted"]
            else if e.version >= latest then []
            else if a.rewrap.Err? then [a.rewrap.error]
            else if !IsFresh(a.rewrap.value, latest) then ["verify_mismatch"]
            else if a.decryptFails.Some? then [a.decryptFails.value]
            else if plain(Trim(e.content)) != plain(a.rewrap.value.ciphertext) then ["verify_mismatch"]
            else if !a.writeOk || (AsScanned(e, AtCheck(disk, a), a) && !a.renameOk) then ["write_failed"]
            else [])
      && r'.aborted ==
           if r.aborted.Some? then r.aborted
           else if e.version >= latest then None
           else if a.rewrap.Err? then (if EndsRun(a.rewrap.error) then Some(a.rewrap.error) else None)
           else if IsFresh(a.rewrap.value, latest) && a.decryptFails.Some? && EndsRun(a.decryptFails.value)
           then a.decryptFails else None
  {
    assert r.failures + [] == r.failures;
  }

  /** Others' writes do the same to two disks that agree at a path, or wherever they write. */
  lemma {:induction false} ApplyAgrees(d: Disk, s: Disk, ws: seq<Writes>, p: string)
    ensures KeyOrText(d, p) == KeyOrText(s, p) || Touch(ws, p) ==>
      KeyOrText(Apply(d, ws), p) == KeyOrText(Apply(s, ws), p)
    ensures !Touch(ws, p) ==> KeyOrText(Apply(d, ws), p) == KeyOrText(d, p)
    decreases |ws|
  {
    if ws != [] {
      var w := ws[0];
      assert ws == [w] + ws[1..];
      ApplyAgrees(Meanwhile(d, w), Meanwhile(s, w), ws[1..], p);
    }
  }

  function KeyOrText(disk: Disk, p: string): Option<string> { if p in disk then Some(disk[p]) else None }

  lemma StepElsewhere(plain: Decrypt, latest: nat, e: Entry, a: Answers, disk: Disk, r: Report, p: string)
    requires p != e.path
    ensures KeyOrText(Step(plain, latest, e, a, disk, r).0, p)
         == KeyOrText(Apply(disk, OthersIn(plain, latest, e, a, disk, r)), p)
  {
    StepIs(plain, latest, e, a, disk, r);
  }

  /** What the rename puts in place is the scanned key, when it stays. */
  lemma RenameHolds(plain: Decrypt, latest: nat, e: Entry, a: Answers, disk: Disk, r: Report)
    requires Renames(plain, latest, e, a, disk, r) && Bare(a)
    ensures LeavesKey(plain, e, a.between) <==> KeyAt(plain, AtRename(disk, a), e.path) == Some(plain(Trim(e.content)))
    ensures !Withdraws(e, a) ==>
      KeyAt(plain, Step(plain, latest, e, a, disk, r).0, e.path) == Some(plain(Trim(e.content)))
    ensures Withdraws(e, a) ==> e.path !in Step(plain, latest, e, a, disk, r).0
  {
    StepIs(plain, latest, e, a, disk, r);
  }

  /** At its own path, a step leaves the key that others have there exactly when it costs none. */
  lemma StepAtPath(plain: Decrypt, latest: nat, e: Entry, a: Answers, disk: Disk, r: Report, shadow: Disk)
    requires Bare(a) && KeyOrText(disk, e.path) == KeyOrText(shadow, e.path)
    ensures var ws := OthersIn(plain, latest, e, a, disk, r);
      KeyAt(plain, Step(plain, latest, e, a, disk, r).0, e.path) == KeyAt(plain, Apply(shadow, ws), e.path)
      <==> !Costs(plain, latest, e, a, disk, r)
  {
    var ws := OthersIn(plain, latest, e, a, disk, r);
    ApplyAgrees(disk, shadow, ws, e.path);
    StepIs(plain, latest, e, a, disk, r);
    if Renames(plain, latest, e, a, disk, r) {
      RenameHolds(plain, latest, e, a, disk, r);
      assert KeyAt(plain, Apply(shadow, ws), e.path) == KeyAt(plain, AtRename(disk, a), e.path);
    }
  }

  /** A step at another path keeps the difference, unless others write there. */
  lemma StepKeepsDifference(plain: Decrypt, latest: nat, e: Entry, a: Answers, disk: Disk, r: Report, shadow: Disk,
                            p: string)
    requires p != e.path
    ensures var ws := OthersIn(plain, latest, e, a, disk, r);
      KeyAt(plain, Step(plain, latest, e, a, disk, r).0, p) == KeyAt(plain, Apply(shadow, ws), p)
      <==> Touch(ws, p) || KeyAt(plain, disk, p) == KeyAt(plain, shadow, p)
  {
    var ws := OthersIn(plain, latest, e, a, disk, r);
    StepElsewhere(plain, latest, e, a, disk, r, p);
    ApplyAgrees(disk, shadow, ws, p);
    ApplyAgrees(shadow, shadow, ws, p);
  }

  // ---------------------------------------------------------------- runs

  /** A run after its latest version is known. */
  datatype Run = Run(plain: Decrypt, latest: nat, entries: seq<Entry>, answers: seq<Answers>, disk: Disk)
  {
    /** One answer an entry, and a path is listed once, as in a directory. */
    predicate Valid() {
      && |entries| == |answers|
      && (forall i, j :: 0 <= i < j < |entries| ==> entries[i].path != entries[j].path)
      && forall i :: 0 <= i < |answers| ==> Bare(answers[i])
    }

    /** Disk and report after the first n steps. */
    function At(n: nat): (Disk, Report)
      requires |entries| == |answers| && n <= |entries|
    {
      Steps(plain, latest, entries[..n], answers[..n], disk, NOTHING)
    }

    /** What others do during step i. */
    function OthersAt(i: nat): seq<Writes>
      requires |entries| == |answers| && i < |entries|
    {
      OthersIn(plain, latest, entries[i], answers[i], At(i).0, At(i).1)
    }

    /** The disk that others alone would have left after n steps. */
    function Shadow(n: nat): Disk
      requires |entries| == |answers| && n <= |entries|
    {
      if n == 0 then disk else Apply(Shadow(n - 1), OthersAt(n - 1))
    }

    /** Step i costs others the key at p. */
    predicate CostsAt(i: nat, p: string)
      requires |entries| == |answers| && i < |entries|
    {
      entries[i].path == p && Costs(plain, latest, entries[i], answers[i], At(i).0, At(i).1)
    }

    /** Run and shadow hold one key at p after n steps. */
    predicate Agrees(p: string, n: nat)
      requires |entries| == |answers| && n <= |entries|
    {
      KeyAt(plain, At(n).0, p) == KeyAt(plain, Shadow(n), p)
    }

    /** In the first n steps, one costs others the key at p, and nobody writes p after it. */
    predicate Loses(p: string, n: nat)
      requires |entries| == |answers| && n <= |entries|
    {
      exists i :: 0 <= i < n && CostsAt(i, p) && forall j :: i < j < n ==> !Touch(OthersAt(j), p)
    }
  }

  // ---------------------------------------------------------------- what a run loses

  lemma AtNext(run: Run, n: nat)
    requires run.Valid() && n < |run.entries|
    ensures run.At(n + 1) == Step(run.plain, run.latest, run.entries[n], run.answers[n], run.At(n).0, run.At(n).1)
  {
    assert run.entries[..n + 1][..n] == run.entries[..n] && run.answers[..n + 1][..n] == run.answers[..n];
  }

  /** Where the run has no entry, it leaves what others leave. */
  lemma {:induction false} InSync(run: Run, p: string, n: nat)
    requires run.Valid() && n <= |run.entries| && forall i :: 0 <= i < n ==> run.entries[i].path != p
    ensures KeyOrText(run.At(n).0, p) == KeyOrText(run.Shadow(n), p)
  {
    if n > 0 {
      var k := n - 1;
      InSync(run, p, k);
      AtNext(run, k);
      StepElsewhere(run.plain, run.latest, run.entries[k], run.answers[k], run.At(k).0, run.At(k).1, p);
      ApplyAgrees(run.At(k).0, run.Shadow(k), run.OthersAt(k), p);
    }
  }

  /** The step that has the path: before it run and shadow agree. */
  lemma OwnStep(run: Run, p: string, n: nat)
    requires run.Valid() && n < |run.entries| && run.entries[n].path == p
    ensures run.Agrees(p, n + 1) <==> !run.CostsAt(n, p)
  {
    InSync(run, p, n);
    AtNext(run, n);
    StepAtPath(run.plain, run.latest, run.entries[n], run.answers[n], run.At(n).0, run.At(n).1, run.Shadow(n));
  }

  lemma OtherStep(run: Run, p: string, n: nat)
    requires run.Valid() && n < |run.entries| && run.entries[n].path != p
    ensures run.Agrees(p, n + 1) <==> Touch(run.OthersAt(n), p) || run.Agrees(p, n)
  {
    AtNext(run, n);
    StepKeepsDifference(run.plain, run.latest, run.entries[n], run.answers[n], run.At(n).0, run.At(n).1,
                        run.Shadow(n), p);
  }

  /** Some number below n + 1 is marked and none after it crossed: n itself, or one below n when n is
      not crossed. */
  lemma LastMatters(marked: int -> bool, crossed: int -> bool, n: nat)
    ensures (exists i :: 0 <= i < n + 1 && marked(i) && forall j :: i < j < n + 1 ==> !crossed(j))
       <==> marked(n) || ((exists i :: 0 <= i < n && marked(i) && forall j :: i < j < n ==> !crossed(j)) && !crossed(n))
  {
    if marked(n) {
      assert forall j :: n < j < n + 1 ==> !crossed(j);
    }
    if i :| 0 <= i < n && marked(i) && forall j :: i < j < n ==> !crossed(j) {
      if !crossed(n) {
        assert forall j :: i < j < n + 1 ==> !crossed(j);
      }
    }
  }

  lemma LosesNext(run: Run, p: string, n: nat)
    requires run.Valid() && n < |run.entries|
    ensures run.Loses(p, n + 1) <==> run.CostsAt(n, p) || (run.Loses(p, n) && !Touch(run.OthersAt(n), p))
  {
    LastMatters(i => 0 <= i < |run.entries| && run.CostsAt(i, p),
                j => 0 <= j < |run.entries| && Touch(run.OthersAt(j), p), n);
  }

  lemma NoOtherCosts(run: Run, p: string, n: nat)
    requires run.Valid() && n < |run.entries| && run.entries[n].path == p
    ensures !run.Loses(p, n)
  {
  }

  lemma {:induction false} KeysAfter(run: Run, p: string, n: nat)
    requires run.Valid() && n <= |run.entries|
    ensures run.Agrees(p, n) <==> !run.Loses(p, n)
  {
    if n > 0 {
      LosesNext(run, p, n - 1);
      if run.entries[n - 1].path == p {
        NoOtherCosts(run, p, n - 1);
        OwnStep(run, p, n - 1);
      } else {
        KeysAfter(run, p, n - 1);
        OtherStep(run, p, n - 1);
      }
    }
  }

  /**
   * Main result: after a whole run, a path holds another key than others alone would have left
   * there if and only if some step has cost others that key with nobody writing there afterwards:
   * rewritten a key that others had removed or replaced between its check and its rename, or taken
   * away a file whose public key had gone.
   */
  lemma RunLosesKeyIff(run: Run, p: string)
    requires run.Valid()
    ensures KeyAt(run.plain, Rewrap(run.plain, Ok(run.latest), run.entries, run.answers, run.disk).0, p)
         != KeyAt(run.plain, run.Shadow(|run.entries|), p)
       <==> run.Loses(p, |run.entries|)
  {
    assert run.entries[..|run.entries|] == run.entries && run.answers[..|run.entries|] == run.answers;
    KeysAfter(run, p, |run.entries|);
  }

  /** Main result: a file that is missing after a run was removed by others during it, or its public
      key was removed. */
  lemma {:induction false} MissingIsRemoved(plain: Decrypt, latest: nat, entries: seq<Entry>, answers: seq<Answers>,
                                            disk: Disk, r: Report, p: string)
    requires |entries| == |answers| && p in disk && p !in Steps(plain, latest, entries, answers, disk, r).0
    ensures exists i :: 0 <= i < |entries| && (p in answers[i].before.gone || p in answers[i].between.gone
                                               || (entries[i].path == p && Withdraws(entries[i], answers[i])))
  {
    var n := |entries| - 1;
    if p !in Steps(plain, latest, entries[..n], answers[..n], disk, r).0 {
      MissingIsRemoved(plain, latest, entries[..n], answers[..n], disk, r, p);
      var i :| 0 <= i < n && (p in answers[..n][i].before.gone || p in answers[..n][i].between.gone
                              || (entries[..n][i].path == p && Withdraws(entries[..n][i], answers[..n][i])));
      assert answers[..n][i] == answers[i] && entries[..n][i] == entries[i];
    }
  }
}
