/**
 * The purge over databases that change while it scans them: what the two paginated scans see, and
 * what that is worth for the users it deletes.
 */
module PurgeScans {
  import opened Wrappers
  import opened Pagination
  import opened PurgeUsers

  // ---------------------------------------------------------------- what a scan reads

  predicate InOrder(dbs: seq<seq<Row>>) {
    forall k :: 0 <= k < |dbs| ==> forall i, j :: 0 <= i < j < |dbs[k]| ==> dbs[k][i].id < dbs[k][j].id
  }

  /** The row was in one of the first snapshots, with its document. */
  ghost predicate ReadIn(dbs: seq<seq<Row>>, pages: nat, r: Row) {
    r.doc.Some? && exists k :: 0 <= k < pages && k < |dbs| && r in dbs[k]
  }

  lemma PageIsRead(db: seq<Row>, cursor: Option<int>, batch: nat, r: Row)
    requires Ascending(db) && batch > 0 && Complete(PageOf(db, cursor, batch))
    requires r in Visible(PageOf(db, cursor, batch))
    ensures r.doc.Some? && r in db
  {
    var lo, hi := PageSlice(db, cursor, batch);
    VisibleRows(db[lo..hi]);
  }

  lemma ReadLater(dbs: seq<seq<Row>>, pages: nat, r: Row)
    requires dbs != [] && ReadIn(dbs[1..], pages, r)
    ensures ReadIn(dbs, pages + 1, r)
  {
    var k :| 0 <= k < pages && k < |dbs[1..]| && r in dbs[1..][k];
    assert r in dbs[k + 1];
  }

  /** Every row a scan yields is a row of a snapshot it read, document and all. */
  lemma {:induction false} YieldsWhatItRead(dbs: seq<seq<Row>>, cursor: Option<int>, batch: nat, r: Row)
    requires InOrder(dbs) && batch > 0 && Scan(dbs, cursor, batch).Ok?
    requires r in Scan(dbs, cursor, batch).value.rows
    ensures ReadIn(dbs, Scan(dbs, cursor, batch).value.pages, r)
    decreases |dbs|
  {
    var page := PageOf(dbs[0], cursor, batch);
    var last := Some(page[|page| - 1].id);
    if r in Visible(page) {
      PageIsRead(dbs[0], cursor, batch, r);
    } else {
      YieldsWhatItRead(dbs[1..], last, batch, r);
      ReadLater(dbs, Scan(dbs[1..], last, batch).value.pages, r);
    }
  }

  /** A whole scan, from the start to its end. */
  ghost predicate Completed(dbs: seq<seq<Row>>, batch: nat) {
    InOrder(dbs) && batch > 0 && Scan(dbs, None, batch).Ok? && Scan(dbs, None, batch).value.ended
  }

  function Rows(dbs: seq<seq<Row>>, batch: nat): seq<Row>
    requires Scan(dbs, None, batch).Ok?
  {
    Scan(dbs, None, batch).value.rows
  }

  ghost predicate Lasts(dbs: seq<seq<Row>>, batch: nat, id: int)
    requires Scan(dbs, None, batch).Ok?
  {
    Throughout(dbs, Scan(dbs, None, batch).value.pages, id)
  }

  /** A completed scan reads each id that lasts exactly once, as it was in some snapshot. */
  lemma LastingIsReadOnce(dbs: seq<seq<Row>>, batch: nat, id: int) returns (i: nat)
    requires Completed(dbs, batch) && Lasts(dbs, batch, id)
    ensures i < |Rows(dbs, batch)| && Rows(dbs, batch)[i].id == id
    ensures forall j :: 0 <= j < |Rows(dbs, batch)| && Rows(dbs, batch)[j].id == id ==> j == i
    ensures ReadIn(dbs, Scan(dbs, None, batch).value.pages, Rows(dbs, batch)[i])
  {
    ScanYields(dbs, None, batch);
    var rows := Rows(dbs, batch);
    assert Has(rows, id);
    i :| 0 <= i < |rows| && rows[i].id == id && !rows[i].design;
    YieldsWhatItRead(dbs, None, batch, rows[i]);
  }

  // ---------------------------------------------------------------- the documents

  /** The documents of the rows, read as users or devices. */
  function Read<T>(read: string -> T, rows: seq<Row>): (ts: seq<T>)
    ensures |ts| == |rows|
    ensures forall i :: 0 <= i < |rows| && rows[i].doc.Some? ==> ts[i] == read(rows[i].doc.value)
  {
    seq(|rows|, i requires 0 <= i < |rows| => read(if rows[i].doc.Some? then rows[i].doc.value else ""))
  }

  /** In some snapshot that the scan read, the device with this id has another owner. */
  ghost predicate SomewhereNotOwned(dbs: seq<seq<Row>>, pages: nat, device: string -> Device, id: int, owner: string) {
    exists r :: ReadIn(dbs, pages, r) && r.id == id && device(r.doc.value).owner != owner
  }

  /** A user that owns none of the devices read owns none that lasts, in some snapshot. */
  lemma OwnsNoneThatLasts(dbs: seq<seq<Row>>, batch: nat, device: string -> Device, owner: string, id: int)
    requires Completed(dbs, batch) && Lasts(dbs, batch, id)
    requires forall v :: v in Read(device, Rows(dbs, batch)) ==> v.owner != owner
    ensures SomewhereNotOwned(dbs, Scan(dbs, None, batch).value.pages, device, id, owner)
  {
    var i := LastingIsReadOnce(dbs, batch, id);
    assert Read(device, Rows(dbs, batch))[i] in Read(device, Rows(dbs, batch));
  }

  /** A user read was, in some snapshot, a document. */
  ghost predicate WasRead(dbs: seq<seq<Row>>, pages: nat, user: string -> User, u: User) {
    exists r :: ReadIn(dbs, pages, r) && user(r.doc.value) == u
  }

  lemma UsersWereRead(dbs: seq<seq<Row>>, batch: nat, user: string -> User, u: User)
    requires Completed(dbs, batch) && u in Read(user, Rows(dbs, batch))
    ensures WasRead(dbs, Scan(dbs, None, batch).value.pages, user, u)
  {
    var i :| 0 <= i < |Rows(dbs, batch)| && Read(user, Rows(dbs, batch))[i] == u;
    YieldsWhatItRead(dbs, None, batch, Rows(dbs, batch)[i]);
  }

  /** The k-th deletion is safe for the lists that were read. */
  lemma DeletionIsSafe(ds: seq<Device>, us: seq<User>, checks: seq<Check>, k: nat)
    requires |checks| == |Candidates(us, Owners(ds))| && k < |Apply(Candidates(us, Owners(ds)), checks).deletions|
    ensures var d := Apply(Candidates(us, Owners(ds)), checks).deletions[k];
      && d.original in Candidates(us, Owners(ds)) && d.original in us
      && Unused(d.original) && Unused(d.current) && d.original.rev == d.current.rev
      && forall v :: v in ds ==> v.owner != d.original.id
  {
    var cs := Candidates(us, Owners(ds));
    DeletionsJustified(cs, checks, k);
    var d := Apply(cs, checks).deletions[k];
    CandidatesSorted(us, Owners(ds), d.original);
    assert forall v :: v in ds ==> v.owner in Owners(ds);
  }

  /**
   * Main result: whatever is inserted, changed and deleted while the purge scans, no user it deletes
   * owns, in every snapshot read, a device that is there throughout the device scan; and what it
   * deletes was read, in some snapshot of the users, as the unused document that is snapshotted.
   */
  lemma DeletedOwnNoLastingDevice(devices: seq<seq<Row>>, users: seq<seq<Row>>, batch: nat, device: string -> Device,
                                  user: string -> User, checks: seq<Check>, k: nat)
    requires Completed(devices, batch) && Completed(users, batch)
    requires var cs := Candidates(Read(user, Rows(users, batch)), Owners(Read(device, Rows(devices, batch))));
      |checks| == |cs| && k < |Apply(cs, checks).deletions|
    ensures var cs := Candidates(Read(user, Rows(users, batch)), Owners(Read(device, Rows(devices, batch))));
      var d := Apply(cs, checks).deletions[k];
      && d.original in cs && Unused(d.original) && Unused(d.current) && d.original.rev == d.current.rev
      && WasRead(users, Scan(users, None, batch).value.pages, user, d.original)
      && forall id :: Lasts(devices, batch, id) ==>
           SomewhereNotOwned(devices, Scan(devices, None, batch).value.pages, device, id, d.original.id)
  {
    var ds, us := Read(device, Rows(devices, batch)), Read(user, Rows(users, batch));
    DeletionIsSafe(ds, us, checks, k);
    var d := Apply(Candidates(us, Owners(ds)), checks).deletions[k];
    UsersWereRead(users, batch, user, d.original);
    forall id | Lasts(devices, batch, id)
      ensures SomewhereNotOwned(devices, Scan(devices, None, batch).value.pages, device, id, d.original.id)
    {
      OwnsNoneThatLasts(devices, batch, device, d.original.id, id);
    }
  }

  /** Main result: every user there throughout the user scan is read exactly once, and so is a
      candidate or retained for one reason. */
  lemma LastingUsersAreCounted(users: seq<seq<Row>>, batch: nat, user: string -> User, owners: set<string>, id: int)
    returns (i: nat)
    requires Completed(users, batch) && Lasts(users, batch, id)
    ensures var us := Read(user, Rows(users, batch));
      && i < |us| && Rows(users, batch)[i].id == id
      && (forall j :: 0 <= j < |us| && Rows(users, batch)[j].id == id ==> j == i)
      && (us[i] in Candidates(us, owners) <==> Sorted(us[i], owners) == Candidate)
  {
    var us := Read(user, Rows(users, batch));
    i := LastingIsReadOnce(users, batch, id);
    assert us[i] in us;
    CandidatesSorted(us, owners, us[i]);
  }
}
