/**
 * The unused-user purge: two full scans, a snapshot of every candidate, and only then one
 * revision-checked deletion per candidate that is still unused.
 */
module PurgeUsers {
  import opened Wrappers

  /** A user document as classifyUser sees it; rev is "" when it is not a non-empty string. */
  datatype User = User(id: string, owner: Option<string>, rev: string, deleted: bool, conflicted: bool,
                       loginMarker: bool, admin: bool, attachments: bool, oauth: bool)

  /** owner is "" when it is not a non-empty string. */
  datatype Device = Device(owner: string, conflicted: bool)

  datatype Reason = InvalidOrConflicted | LoginMarker | Admin | Attachments | OAuth | Devices | Candidate

  predicate IdShape(id: string) {
    |id| >= 64 && forall i :: 0 <= i < |id| ==> 'a' <= id[i] <= 'z' || '0' <= id[i] <= '9'
  }

  function ClassifyUser(doc: Option<User>): Reason {
    if doc == None then InvalidOrConflicted else
      var u := doc.value;
      if !IdShape(u.id) || u.owner != Some(u.id) || u.rev == "" || u.deleted || u.conflicted then InvalidOrConflicted
      else if u.loginMarker then LoginMarker
      else if u.admin then Admin
      else if u.attachments then Attachments
      else if u.oauth then OAuth
      else Candidate
  }

  /** What the purge may delete: a well-formed, self-owned, live document without a trace of use. */
  predicate Unused(u: User) {
    && |u.id| >= 64 && (forall i :: 0 <= i < |u.id| ==> 'a' <= u.id[i] <= 'z' || '0' <= u.id[i] <= '9')
    && u.owner == Some(u.id) && u.rev != "" && !u.deleted && !u.conflicted
    && !u.loginMarker && !u.admin && !u.attachments && !u.oauth
  }

  lemma CandidateIffUnused(doc: Option<User>)
    ensures ClassifyUser(doc) == Candidate <==> doc.Some? && Unused(doc.value)
  {
  }

  // ---------------------------------------------------------------- what the databases answer

  datatype GetAnswer = Got(user: User) | NotFound | GetError

  datatype FindAnswer = Owns(devices: nat) | FindError

  datatype DestroyAnswer = Destroyed | Gone | DestroyError      // Gone: 409 or 404

  /** The answers for one candidate of the apply loop. */
  datatype Check = Check(get: GetAnswer, find: FindAnswer, destroy: DestroyAnswer)

  datatype Error = ConflictedDevice | AmbiguousDeviceOwner | SnapshotRefused | Aborted

  datatype Verdict = Deleted | Changed | Conflict | Abort

  /** What becomes of one candidate. */
  function Judge(original: User, c: Check): Verdict {
    match c.get
    case GetError => Abort
    case NotFound => Changed
    case Got(current) =>
      if current.rev != original.rev || ClassifyUser(Some(current)) != Candidate then Changed
      else match c.find
        case FindError => Abort
        case Owns(n) =>
          if n > 0 then Changed
          else match c.destroy
            case Destroyed => Deleted
            case Gone => Conflict
            case DestroyError => Abort
  }

  // ---------------------------------------------------------------- the two scans

  predicate CleanDevices(devices: seq<Device>) {
    forall i :: 0 <= i < |devices| ==> !devices[i].conflicted && devices[i].owner != ""
  }

  function Owners(devices: seq<Device>): set<string> { set d | d in devices :: d.owner }

  /** Why a scanned user is kept, Candidate when it is not. */
  function Sorted(u: User, owners: set<string>): Reason {
    var r := ClassifyUser(Some(u));
    if r == Candidate && u.id in owners then Devices else r
  }

  function Candidates(users: seq<User>, owners: set<string>): seq<User> {
    if users == [] then [] else
      var n := |users| - 1;
      Candidates(users[..n], owners) + if Sorted(users[n], owners) == Candidate then [users[n]] else []
  }

  function CountReason(users: seq<User>, owners: set<string>, reason: Reason): nat {
    if users == [] then 0 else
      var n := |users| - 1;
      CountReason(users[..n], owners, reason) + if Sorted(users[n], owners) == reason then 1 else 0
  }

  // ---------------------------------------------------------------- the apply loop

  /** One deletion: the document of the first scan, and the one read again. */
  datatype Deletion = Deletion(original: User, current: User)

  datatype Tally = Tally(deleted: nat, changed: nat, conflicts: nat, deletions: seq<Deletion>, aborted: bool)

  /** The loop over the candidates, until an answer aborts it. */
  function Apply(candidates: seq<User>, checks: seq<Check>): Tally
    requires |candidates| == |checks|
  {
    if candidates == [] then Tally(0, 0, 0, [], false) else
      var n := |candidates| - 1;
      var t := Apply(candidates[..n], checks[..n]);
      if t.aborted then t else
        match Judge(candidates[n], checks[n])
        case Deleted =>
          t.(deleted := t.deleted + 1, deletions := t.deletions + [Deletion(candidates[n], checks[n].get.user)])
        case Changed => t.(changed := t.changed + 1)
        case Conflict => t.(conflicts := t.conflicts + 1)
        case Abort => t.(aborted := true)
  }

  /** What the run does to the outside world, in order. */
  datatype Act = Snapshot(users: seq<User>) | Delete(deletion: Deletion)

  function Deletes(ds: seq<Deletion>): seq<Act> { seq(|ds|, i requires 0 <= i < |ds| => Delete(ds[i])) }

  lemma {:induction false} AbortSticks(candidates: seq<User>, checks: seq<Check>, i: nat)
    requires |candidates| == |checks| && i <= |candidates| && Apply(candidates[..i], checks[..i]).aborted
    ensures Apply(candidates, checks) == Apply(candidates[..i], checks[..i])
    decreases |candidates| - i
  {
    if i < |candidates| {
      assert candidates[..i + 1][..i] == candidates[..i] && checks[..i + 1][..i] == checks[..i];
      AbortSticks(candidates, checks, i + 1);
    } else {
      assert candidates[..i] == candidates && checks[..i] == checks;
    }
  }

  class Purge {
    var scanned: nat
    var candidates: nat
    var deleted: nat
    var changed: nat
    var conflicts: nat
    var retained: map<Reason, nat>
    var acts: seq<Act>

    constructor ()
      ensures scanned == candidates == deleted == changed == conflicts == 0
      ensures retained == map[] && acts == []
    {
      scanned, candidates, deleted, changed, conflicts, retained, acts := 0, 0, 0, 0, 0, map[], [];
    }

    function Retained(reason: Reason): nat
      reads this
    {
      if reason in retained then retained[reason] else 0
    }

    /** Both scans; nothing outside is touched. */
    method ScanAll(devices: seq<Device>, users: seq<User>) returns (r: Result<seq<User>, Error>)
      requires scanned == candidates == 0 && retained == map[]
      modifies this
      ensures acts == old(acts) && deleted == old(deleted) && changed == old(changed) && conflicts == old(conflicts)
      ensures r.Ok? <==> CleanDevices(devices)
      ensures r.Ok? ==>
        && r.value == Candidates(users, Owners(devices))
        && scanned == |users| && candidates == |r.value|
        && forall reason :: reason != Candidate ==> Retained(reason) == CountReason(users, Owners(devices), reason)
    {
      var owners: set<string> := {};
      for i := 0 to |devices|
        invariant unchanged(this)
        invariant CleanDevices(devices[..i]) && owners == Owners(devices[..i])
      {
        if devices[i].conflicted {
          return Err(ConflictedDevice);
        }
        if devices[i].owner == "" {
          return Err(AmbiguousDeviceOwner);
        }
        assert devices[..i + 1] == devices[..i] + [devices[i]];
        owners := owners + {devices[i].owner};
      }
      assert devices[..|devices|] == devices;
      var found: seq<User> := [];
      for i := 0 to |users|
        invariant acts == old(acts) && deleted == old(deleted) && changed == old(changed) && conflicts == old(conflicts)
        invariant scanned == i && found == Candidates(users[..i], owners)
        invariant forall reason :: reason != Candidate ==> Retained(reason) == CountReason(users[..i], owners, reason)
      {
        assert users[..i + 1][..i] == users[..i];
        scanned := scanned + 1;
        var reason := ClassifyUser(Some(users[i]));
        if reason != Candidate {
          retained := retained[reason := Retained(reason) + 1];
        } else if users[i].id in owners {
          retained := retained[Devices := Retained(Devices) + 1];
        } else {
          found := found + [users[i]];
        }
      }
      assert users[..|users|] == users;
      candidates := |found|;
      return Ok(found);
    }

    /** run(): the scans, and when applying the snapshot and then the deletions. checks answers
        for the candidates in their order. */
    method Run(apply: bool, devices: seq<Device>, users: seq<User>, snapshotOk: bool, checks: seq<Check>)
      returns (r: Result<bool, Error>)
      requires scanned == candidates == deleted == changed == conflicts == 0 && retained == map[] && acts == []
      requires |checks| == |Candidates(users, Owners(devices))|
      modifies this
      ensures r.Ok? ==>
        && CleanDevices(devices) && scanned == |users|
        && candidates == |Candidates(users, Owners(devices))|
        && forall reason :: reason != Candidate ==> Retained(reason) == CountReason(users, Owners(devices), reason)
      ensures !apply || !CleanDevices(devices) || Candidates(users, Owners(devices)) == [] || !snapshotOk ==> acts == []
      ensures apply && CleanDevices(devices) && Candidates(users, Owners(devices)) != [] && snapshotOk ==>
        var cs := Candidates(users, Owners(devices));
        var t := Apply(cs, checks);
        && r.Ok? == !t.aborted
        && deleted == t.deleted && changed == t.changed && conflicts == t.conflicts
        && acts == [Snapshot(cs)] + Deletes(t.deletions)
    {
      var scan := ScanAll(devices, users);
      if scan.Err? {
        return Err(scan.error);
      }
      var cs := scan.value;
      if !apply || |cs| == 0 {
        return Ok(true);
      }
      if !snapshotOk {
        return Err(SnapshotRefused);
      }
      acts := acts + [Snapshot(cs)];
      r := DeleteAll(cs, checks);
    }

    /** The loop over the candidates, after the snapshot. */
    method DeleteAll(cs: seq<User>, checks: seq<Check>) returns (r: Result<bool, Error>)
      requires |checks| == |cs| && deleted == changed == conflicts == 0
      modifies this
      ensures scanned == old(scanned) && candidates == old(candidates) && retained == old(retained)
      ensures var t := Apply(cs, checks);
        && r.Ok? == !t.aborted
        && deleted == t.deleted && changed == t.changed && conflicts == t.conflicts
        && acts == old(acts) + Deletes(t.deletions)
    {
      for i := 0 to |cs|
        invariant scanned == old(scanned) && candidates == old(candidates) && retained == old(retained)
        invariant Apply(cs[..i], checks[..i])
          == Tally(deleted, changed, conflicts, Apply(cs[..i], checks[..i]).deletions, false)
        invariant acts == old(acts) + Deletes(Apply(cs[..i], checks[..i]).deletions)
      {
        assert cs[..i + 1][..i] == cs[..i] && checks[..i + 1][..i] == checks[..i];
        match Judge(cs[i], checks[i])
        case Changed =>
          changed := changed + 1;
        case Deleted =>
          ghost var before := Apply(cs[..i], checks[..i]).deletions;
          var d := Deletion(cs[i], checks[i].get.user);
          deleted := deleted + 1;
          acts := acts + [Delete(d)];
          assert Deletes(before + [d]) == Deletes(before) + [Delete(d)];
        case Conflict =>
          conflicts := conflicts + 1;
        case Abort =>
          AbortSticks(cs, checks, i + 1);
          return Err(Aborted);
      }
      assert cs[..|cs|] == cs && checks[..|cs|] == checks;
      return Ok(true);
    }
  }

  // ---------------------------------------------------------------- accounting and safety

  /** Every scanned user is a candidate or retained for exactly one reason. */
  lemma {:induction false} ScanAccounts(users: seq<User>, owners: set<string>)
    ensures |users| == |Candidates(users, owners)|
      + CountReason(users, owners, InvalidOrConflicted) + CountReason(users, owners, LoginMarker)
      + CountReason(users, owners, Admin) + CountReason(users, owners, Attachments)
      + CountReason(users, owners, OAuth) + CountReason(users, owners, Devices)
  {
    if users != [] {
      ScanAccounts(users[..|users| - 1], owners);
    }
  }

  /** A loop that ends normally has accounted for every candidate once. */
  lemma {:induction false} ApplyAccounts(candidates: seq<User>, checks: seq<Check>)
    requires |candidates| == |checks|
    ensures var t := Apply(candidates, checks);
      && (!t.aborted ==> t.deleted + t.changed + t.conflicts == |candidates|)
      && t.deleted == |t.deletions|
  {
    if candidates != [] {
      var n := |candidates| - 1;
      ApplyAccounts(candidates[..n], checks[..n]);
    }
  }

  /** The deletion was judged on the same revision at both reads, and on a fresh device query. */
  ghost predicate Justified(candidates: seq<User>, checks: seq<Check>, d: Deletion)
    requires |candidates| == |checks|
  {
    exists i :: 0 <= i < |candidates| && candidates[i] == d.original &&
      checks[i] == Check(Got(d.current), Owns(0), Destroyed)
  }

  lemma {:induction false} DeletionsJustified(candidates: seq<User>, checks: seq<Check>, k: nat)
    requires |candidates| == |checks| && k < |Apply(candidates, checks).deletions|
    ensures var d := Apply(candidates, checks).deletions[k];
      && Justified(candidates, checks, d)
      && d.current.rev == d.original.rev && ClassifyUser(Some(d.current)) == Candidate
  {
    var n := |candidates| - 1;
    var before := Apply(candidates[..n], checks[..n]);
    if k < |before.deletions| {
      DeletionsJustified(candidates[..n], checks[..n], k);
      var d := before.deletions[k];
      var i :| 0 <= i < n && candidates[..n][i] == d.original &&
        checks[..n][i] == Check(Got(d.current), Owns(0), Destroyed);
      assert candidates[i] == d.original && checks[i] == Check(Got(d.current), Owns(0), Destroyed);
    } else {
      assert candidates[n] == Apply(candidates, checks).deletions[k].original;
    }
  }

  /** The candidate was read again, with the same revision and still without a trace of use. */
  predicate StillUnused(u: User, c: Check) { c.get.Got? && c.get.user.rev == u.rev && Unused(c.get.user) }

  /** The check of candidate u ends in its deletion. */
  predicate Deletable(u: User, c: Check) { StillUnused(u, c) && c.find == Owns(0) && c.destroy == Destroyed }

  /** It is skipped as changed: gone, changed or used since the scan, or an owner of a device by now. */
  predicate HasChanged(u: User, c: Check) {
    c.get == NotFound || (c.get.Got? && !StillUnused(u, c)) || (StillUnused(u, c) && c.find.Owns? && c.find.devices > 0)
  }

  /** It is skipped as a conflict: the database would not delete that revision, or had it no more. */
  predicate HasConflict(u: User, c: Check) { StillUnused(u, c) && c.find == Owns(0) && c.destroy == Gone }

  /** The answer ends the run: a failed read, a failed device query, or a failed deletion. */
  predicate Fails(u: User, c: Check) {
    || c.get == GetError
    || (StillUnused(u, c) && (c.find == FindError || (c.find == Owns(0) && c.destroy == DestroyError)))
  }

  function CountChanged(candidates: seq<User>, checks: seq<Check>): nat
    requires |candidates| == |checks|
  {
    if candidates == [] then 0 else
      var n := |candidates| - 1;
      CountChanged(candidates[..n], checks[..n]) + if HasChanged(candidates[n], checks[n]) then 1 else 0
  }

  function CountConflicts(candidates: seq<User>, checks: seq<Check>): nat
    requires |candidates| == |checks|
  {
    if candidates == [] then 0 else
      var n := |candidates| - 1;
      CountConflicts(candidates[..n], checks[..n]) + if HasConflict(candidates[n], checks[n]) then 1 else 0
  }

  /** The candidates that Deletable holds of, in order, each with the document read again. */
  function DeletableOnes(candidates: seq<User>, checks: seq<Check>): (ds: seq<Deletion>)
    requires |candidates| == |checks|
  {
    if candidates == [] then [] else
      (if Deletable(candidates[0], checks[0]) then [Deletion(candidates[0], checks[0].get.user)] else [])
      + DeletableOnes(candidates[1..], checks[1..])
  }

  lemma {:induction false} DeletableSnoc(candidates: seq<User>, checks: seq<Check>)
    requires |candidates| == |checks| > 0
    ensures var n := |candidates| - 1;
      DeletableOnes(candidates, checks) == DeletableOnes(candidates[..n], checks[..n])
        + if Deletable(candidates[n], checks[n]) then [Deletion(candidates[n], checks[n].get.user)] else []
  {
    var n := |candidates| - 1;
    if n > 0 {
      DeletableSnoc(candidates[1..], checks[1..]);
      assert candidates[1..][..n - 1] == candidates[..n][1..] && checks[1..][..n - 1] == checks[..n][1..];
    }
  }

  /** The first k answers fail nothing, and the next one, if any, does. */
  ghost predicate FailsAt(candidates: seq<User>, checks: seq<Check>, k: nat)
    requires |candidates| == |checks|
  {
    && k <= |candidates|
    && (forall i :: 0 <= i < k ==> !Fails(candidates[i], checks[i]))
    && (k < |candidates| ==> Fails(candidates[k], checks[k]))
  }

  lemma JudgeIs(u: User, c: Check)
    ensures Judge(u, c) == Deleted <==> Deletable(u, c)
    ensures Judge(u, c) == Changed <==> HasChanged(u, c)
    ensures Judge(u, c) == Conflict <==> HasConflict(u, c)
    ensures Judge(u, c) == Abort <==> Fails(u, c)
  {
    if c.get.Got? {
      CandidateIffUnused(Some(c.get.user));
    }
  }

  /** What the last candidate adds, when the loop gets there. */
  lemma ApplySnoc(candidates: seq<User>, checks: seq<Check>)
    requires |candidates| == |checks| > 0
    ensures var n := |candidates| - 1;
      var u, c := candidates[n], checks[n];
      var before, t := Apply(candidates[..n], checks[..n]), Apply(candidates, checks);
      && (before.aborted ==> t == before)
      && (!before.aborted ==>
            && (t.aborted <==> Fails(u, c))
            && t.deletions == before.deletions + (if Deletable(u, c) then [Deletion(u, c.get.user)] else [])
            && t.changed == before.changed + (if HasChanged(u, c) then 1 else 0)
            && t.conflicts == before.conflicts + (if HasConflict(u, c) then 1 else 0))
  {
    JudgeIs(candidates[|candidates| - 1], checks[|candidates| - 1]);
  }

  /** The loop's tally is that of the first k answers. */
  ghost predicate TalliedTo(candidates: seq<User>, checks: seq<Check>, k: nat)
    requires |candidates| == |checks| && k <= |candidates|
  {
    var t := Apply(candidates, checks);
    && (t.aborted <==> k < |candidates|)
    && t.deletions == DeletableOnes(candidates[..k], checks[..k])
    && t.changed == CountChanged(candidates[..k], checks[..k])
    && t.conflicts == CountConflicts(candidates[..k], checks[..k])
  }

  /** One candidate more, after the first failing answer or at it. */
  lemma TallyStays(candidates: seq<User>, checks: seq<Check>, n: nat, k: nat)
    requires |candidates| == |checks| == n + 1 && k <= n && FailsAt(candidates, checks, k)
    requires TalliedTo(candidates[..n], checks[..n], k)
    ensures TalliedTo(candidates, checks, k)
  {
    assert candidates[..n][..k] == candidates[..k] && checks[..n][..k] == checks[..k];
    ApplySnoc(candidates, checks);
  }

  /** One candidate more, when no answer has failed. */
  lemma TallyGrows(candidates: seq<User>, checks: seq<Check>, n: nat)
    requires |candidates| == |checks| == n + 1 && !Fails(candidates[n], checks[n])
    requires TalliedTo(candidates[..n], checks[..n], n)
    ensures TalliedTo(candidates, checks, n + 1)
  {
    assert candidates[..n][..n] == candidates[..n] && checks[..n][..n] == checks[..n];
    assert candidates[..n + 1] == candidates && checks[..n + 1] == checks;
    ApplySnoc(candidates, checks);
    DeletableSnoc(candidates, checks);
  }

  lemma {:induction false} TalliedAlways(candidates: seq<User>, checks: seq<Check>, k: nat)
    requires |candidates| == |checks| && FailsAt(candidates, checks, k)
    ensures TalliedTo(candidates, checks, k)
    decreases |candidates|
  {
    if candidates != [] {
      var n := |candidates| - 1;
      assert forall i :: 0 <= i < n ==> candidates[..n][i] == candidates[i] && checks[..n][i] == checks[i];
      if k <= n {
        TalliedAlways(candidates[..n], checks[..n], k);
        TallyStays(candidates, checks, n, k);
      } else {
        TalliedAlways(candidates[..n], checks[..n], n);
        TallyGrows(candidates, checks, n);
      }
    }
  }

  /**
   * Main result on the loop: it ends normally exactly when no answer fails; and the deletions made,
   * and the counts of changes and conflicts, are exactly those of the candidates before the first
   * answer that fails: none more and none fewer, the deletions in the candidates' order.
   */
  lemma DeletesExactly(candidates: seq<User>, checks: seq<Check>, k: nat)
    requires |candidates| == |checks| && FailsAt(candidates, checks, k)
    ensures var t := Apply(candidates, checks);
      && (t.aborted <==> k < |candidates|)
      && t.deletions == DeletableOnes(candidates[..k], checks[..k])
      && t.changed == CountChanged(candidates[..k], checks[..k])
      && t.conflicts == CountConflicts(candidates[..k], checks[..k])
  {
    TalliedAlways(candidates, checks, k);
  }

  /** Every scanned user is kept for the first of the reasons that apply, or is a candidate. */
  lemma ReasonIs(u: User, owners: set<string>)
    ensures var wellFormed :=
        && |u.id| >= 64 && (forall i :: 0 <= i < |u.id| ==> 'a' <= u.id[i] <= 'z' || '0' <= u.id[i] <= '9')
        && u.owner == Some(u.id) && u.rev != "" && !u.deleted && !u.conflicted;
      && (Sorted(u, owners) == InvalidOrConflicted <==> !wellFormed)
      && (Sorted(u, owners) == LoginMarker <==> wellFormed && u.loginMarker)
      && (Sorted(u, owners) == Admin <==> wellFormed && u.admin && !u.loginMarker)
      && (Sorted(u, owners) == Attachments <==> wellFormed && u.attachments && !u.admin && !u.loginMarker)
      && (Sorted(u, owners) == OAuth <==> wellFormed && u.oauth && !u.attachments && !u.admin && !u.loginMarker)
      && (Sorted(u, owners) == Devices <==> Unused(u) && u.id in owners)
      && (Sorted(u, owners) == Candidate <==> Unused(u) && u.id !in owners)
  {
    CandidateIffUnused(Some(u));
  }

  lemma {:induction false} CandidatesSorted(users: seq<User>, owners: set<string>, u: User)
    ensures u in Candidates(users, owners) <==> u in users && Sorted(u, owners) == Candidate
  {
    if users != [] {
      var n := |users| - 1;
      CandidatesSorted(users[..n], owners, u);
      assert users == users[..n] + [users[n]];
    }
  }

  /**
   * Main result: whatever the databases answer, every deletion of a run comes after the snapshot
   * that holds its document, and its user was unused at both reads with one revision and owned no
   * device in the full scan nor in the fresh query.
   */
  lemma DeletionsAreSafe(devices: seq<Device>, users: seq<User>, checks: seq<Check>, k: nat)
    requires |checks| == |Candidates(users, Owners(devices))|
    requires 0 < k < |[Snapshot(Candidates(users, Owners(devices)))] +
      Deletes(Apply(Candidates(users, Owners(devices)), checks).deletions)|
    ensures var cs := Candidates(users, Owners(devices));
      var acts := [Snapshot(cs)] + Deletes(Apply(cs, checks).deletions);
      && acts[0] == Snapshot(cs) && acts[k].Delete?
      && var d := acts[k].deletion;
         && d.original in cs && d.original in users
         && Unused(d.original) && Unused(d.current)
         && d.original.rev == d.current.rev
         && (forall v :: v in devices ==> v.owner != d.original.id)
         && Justified(cs, checks, d)
  {
    var cs := Candidates(users, Owners(devices));
    DeletionsJustified(cs, checks, k - 1);
    var d := Apply(cs, checks).deletions[k - 1];
    CandidatesSorted(users, Owners(devices), d.original);
    assert forall v :: v in devices ==> v.owner in Owners(devices);
  }
}
