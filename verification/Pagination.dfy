/**
 * Cursor pagination over a database that others change between pages. A snapshot is the
 * database at the time of one list request: its rows in id order.
 */
module Pagination {
  import opened Wrappers

  /** Ids are ordered as the database collates them; design tells the ids that start with an
      underscore; a row without its document, or with a deleted one, carries None. */
  datatype Row = Row(id: int, design: bool, doc: Option<string>)

  ghost predicate Ascending(rows: seq<Row>) {
    forall i, j :: 0 <= i < j < |rows| ==> rows[i].id < rows[j].id
  }

  /** A visible row with this id. */
  ghost predicate Has(rows: seq<Row>, id: int) {
    exists i :: 0 <= i < |rows| && rows[i].id == id && !rows[i].design
  }

  /** The rows from a start key on. */
  function From(rows: seq<Row>, start: Option<int>): seq<Row> {
    if start == None || rows == [] || rows[0].id >= start.value then rows else From(rows[1..], start)
  }

  /** db.list with startkey and limit. */
  function List(rows: seq<Row>, start: Option<int>, limit: nat): seq<Row> {
    var from := From(rows, start);
    if |from| <= limit then from else from[..limit]
  }

  /** The rows of a page that are new: all but the cursor's own row. */
  function Fresh(page: seq<Row>, cursor: Option<int>): seq<Row> {
    if page != [] && cursor == Some(page[0].id) then page[1..] else page
  }

  function Visible(rows: seq<Row>): seq<Row> {
    if rows == [] then [] else
      var n := |rows| - 1;
      Visible(rows[..n]) + if rows[n].design then [] else [rows[n]]
  }

  predicate Complete(rows: seq<Row>) { forall i :: 0 <= i < |rows| ==> rows[i].doc.Some? }

  function PageOf(rows: seq<Row>, cursor: Option<int>, batch: nat): seq<Row> {
    Fresh(List(rows, cursor, batch + if cursor.Some? then 1 else 0), cursor)
  }

  /** What a scan over these snapshots yields from a cursor on, and whether it has ended. */
  datatype Scanned = Scanned(rows: seq<Row>, ended: bool, pages: nat)

  datatype ScanError = MissingDocument

  function Scan(dbs: seq<seq<Row>>, cursor: Option<int>, batch: nat): Result<Scanned, ScanError>
    decreases |dbs|
  {
    if dbs == [] then Ok(Scanned([], false, 0)) else
      var page := PageOf(dbs[0], cursor, batch);
      if !Complete(page) then Err(MissingDocument)
      else if page == [] then Ok(Scanned([], true, 1))
      else match Scan(dbs[1..], Some(page[|page| - 1].id), batch)
        case Err(e) => Err(e)
        case Ok(rest) => Ok(Scanned(Visible(page) + rest.rows, rest.ended, rest.pages + 1))
  }

  // ---------------------------------------------------------------- the generator

  function Prepend(rows: seq<Row>, pages: nat, rest: Result<Scanned, ScanError>): Result<Scanned, ScanError> {
    match rest
    case Err(e) => Err(e)
    case Ok(s) => Ok(Scanned(rows + s.rows, s.ended, s.pages + pages))
  }

  lemma FreshLast(page: seq<Row>, before: Option<int>)
    ensures Fresh(page, before) != [] ==> Fresh(page, before)[|Fresh(page, before)| - 1] == page[|page| - 1]
  {
  }

  lemma FreshStep(page: seq<Row>, cursor: Option<int>, i: nat)
    requires i < |page| && Ascending(page)
    ensures Fresh(page[..i + 1], cursor) == if cursor == Some(page[0].id) && i == 0 then []
      else Fresh(page[..i], cursor) + [page[i]]
  {
    assert page[..i + 1] == page[..i] + [page[i]];
  }

  lemma FreshAt(page: seq<Row>, cursor: Option<int>, i: nat)
    requires i < |page| && Ascending(page) && page[i].doc == None && !(cursor == Some(page[0].id) && i == 0)
    ensures !Complete(Fresh(page, cursor))
  {
    var f := Fresh(page, cursor);
    assert f[if cursor == Some(page[0].id) then i - 1 else i] == page[i];
  }

  lemma OneMore(rows: seq<Row>, row: Row)
    ensures Visible(rows + [row]) == Visible(rows) + (if row.design then [] else [row])
    ensures Complete(rows + [row]) <==> Complete(rows) && row.doc.Some?
  {
    var all, n := rows + [row], |rows|;
    assert all[..n] == rows && all[n] == row;
    assert Complete(rows) ==> forall i :: 0 <= i < n ==> all[i] == rows[i];
    if Complete(all) {
      assert forall i :: 0 <= i < n ==> rows[i] == all[i];
    }
  }

  /** One page: skip the cursor's own row, fail on a row without a document, yield the rest. */
  method ReadPage(page: seq<Row>, before: Option<int>)
    returns (complete: bool, cursor: Option<int>, advanced: bool, yielded: seq<Row>)
    requires Ascending(page)
    ensures complete == Complete(Fresh(page, before))
    ensures complete ==>
      var news := Fresh(page, before);
      && advanced == (news != []) && yielded == Visible(news)
      && cursor == if news != [] then Some(news[|news| - 1].id) else before
  {
    complete, cursor, advanced, yielded := true, before, false, [];
    for i := 0 to |page|
      invariant complete && Complete(Fresh(page[..i], before))
      invariant advanced <==> Fresh(page[..i], before) != []
      invariant cursor == if advanced then Some(page[i - 1].id) else before
      invariant yielded == Visible(Fresh(page[..i], before))
    {
      FreshStep(page, before, i);
      var row := page[i];
      if Some(row.id) != cursor {
        if row.doc == None {
          FreshAt(page, before, i);
          complete := false;
          return;
        }
        OneMore(Fresh(page[..i], before), row);
        cursor := Some(row.id);
        advanced := true;
        if !row.design {
          yielded := yielded + [row];
        }
      }
    }
    assert page[..|page|] == page;
    FreshLast(page, before);
  }

  lemma {:induction false} FromSuffix(rows: seq<Row>, start: Option<int>) returns (n: nat)
    requires Ascending(rows)
    ensures n <= |rows| && From(rows, start) == rows[n..]
    ensures start.Some? ==> forall i :: 0 <= i < |rows| ==> (i >= n <==> rows[i].id >= start.value)
    ensures start == None ==> n == 0
    decreases |rows|
  {
    if start == None || rows == [] || rows[0].id >= start.value {
      n := 0;
      assert rows[0..] == rows;
    } else {
      var m := FromSuffix(rows[1..], start);
      n := m + 1;
      assert rows[1..][m..] == rows[n..];
    }
  }

  lemma ListAscending(rows: seq<Row>, start: Option<int>, limit: nat)
    requires Ascending(rows)
    ensures Ascending(List(rows, start, limit))
    ensures start.Some? ==> forall i :: 0 <= i < |List(rows, start, limit)| ==>
      List(rows, start, limit)[i].id >= start.value
  {
    var n := FromSuffix(rows, start);
  }

  /** One list request and its page. */
  method FetchPage(rows: seq<Row>, before: Option<int>, batch: nat)
    returns (complete: bool, cursor: Option<int>, advanced: bool, yielded: seq<Row>)
    requires Ascending(rows)
    ensures complete == Complete(PageOf(rows, before, batch))
    ensures complete ==>
      var news := PageOf(rows, before, batch);
      && advanced == (news != []) && yielded == Visible(news)
      && cursor == if news != [] then Some(news[|news| - 1].id) else before
  {
    var limit := batch + if before.Some? then 1 else 0;
    ListAscending(rows, before, limit);
    complete, cursor, advanced, yielded := ReadPage(List(rows, before, limit), before);
  }

  lemma ScanStep(dbs: seq<seq<Row>>, k: nat, cursor: Option<int>, batch: nat)
    requires k < |dbs|
    ensures var page := PageOf(dbs[k], cursor, batch);
      Scan(dbs[k..], cursor, batch) ==
        if !Complete(page) then Err(MissingDocument)
        else if page == [] then Ok(Scanned([], true, 1))
        else Prepend(Visible(page), 1, Scan(dbs[k + 1..], Some(page[|page| - 1].id), batch))
  {
    assert dbs[k..][0] == dbs[k] && dbs[k..][1..] == dbs[k + 1..];
  }

  lemma PrependTwice(a: seq<Row>, k: nat, b: seq<Row>, r: Result<Scanned, ScanError>)
    ensures Prepend(a, k, Prepend(b, 1, r)) == Prepend(a + b, k + 1, r)
  {
    if r.Ok? { assert a + (b + r.value.rows) == a + b + r.value.rows; }
  }

  /** How the answer of the whole scan follows from what is out and what is still to come. */
  lemma LoopStep(dbs: seq<seq<Row>>, k: nat, cursor: Option<int>, batch: nat, out: seq<Row>,
                 whole: Result<Scanned, ScanError>)
    requires k < |dbs| && whole == Prepend(out, k, Scan(dbs[k..], cursor, batch))
    ensures var page := PageOf(dbs[k], cursor, batch);
      whole ==
        if !Complete(page) then Err(MissingDocument)
        else if page == [] then Ok(Scanned(out, true, k + 1))
        else Prepend(out + Visible(page), k + 1, Scan(dbs[k + 1..], Some(page[|page| - 1].id), batch))
  {
    ScanStep(dbs, k, cursor, batch);
    var page := PageOf(dbs[k], cursor, batch);
    assert out + [] == out;
    if page != [] {
      PrependTwice(out, k, Visible(page), Scan(dbs[k + 1..], Some(page[|page| - 1].id), batch));
    }
  }

  lemma PrependNothing(r: Result<Scanned, ScanError>)
    ensures Prepend([], 0, r) == r
  {
    if r.Ok? { assert [] + r.value.rows == r.value.rows; }
  }

  /** documents(): one list request per snapshot, until a page brings nothing new. */
  method Documents(dbs: seq<seq<Row>>, batch: nat) returns (r: Result<Scanned, ScanError>)
    requires forall k :: 0 <= k < |dbs| ==> Ascending(dbs[k])
    ensures r == Scan(dbs, None, batch)
  {
    var cursor: Option<int> := None;
    var out: seq<Row> := [];
    var k := 0;
    ghost var whole := Scan(dbs, None, batch);
    assert dbs[0..] == dbs;
    PrependNothing(whole);
    while k < |dbs|
      invariant k <= |dbs|
      invariant whole == Prepend(out, k, Scan(dbs[k..], cursor, batch))
    {
      LoopStep(dbs, k, cursor, batch, out, whole);
      var complete, next, advanced, yielded := FetchPage(dbs[k], cursor, batch);
      if !complete {
        return Err(MissingDocument);
      }
      if !advanced {
        return Ok(Scanned(out, true, k + 1));
      }
      cursor := next;
      out := out + yielded;
      k := k + 1;
    }
    assert out + [] == out;
    return Ok(Scanned(out, false, k));
  }

  // ---------------------------------------------------------------- what a scan yields

  predicate Beyond(cursor: Option<int>, id: int) { cursor == None || id > cursor.value }

  lemma ListIsSlice(rows: seq<Row>, cursor: Option<int>, limit: nat, n: nat)
    requires n <= |rows| && From(rows, cursor) == rows[n..]
    ensures List(rows, cursor, limit) == rows[n..if n + limit <= |rows| then n + limit else |rows|]
  {
  }

  /** A page's new rows are the next rows of the snapshot beyond the cursor, and at least one
      when there is any. */
  lemma PageSlice(rows: seq<Row>, cursor: Option<int>, batch: nat) returns (lo: nat, hi: nat)
    requires Ascending(rows) && batch > 0
    ensures lo <= hi <= |rows| && PageOf(rows, cursor, batch) == rows[lo..hi]
    ensures forall i :: 0 <= i < |rows| ==> (i >= lo <==> Beyond(cursor, rows[i].id))
    ensures lo < |rows| ==> lo < hi
  {
    var n := FromSuffix(rows, cursor);
    var limit := batch + if cursor.Some? then 1 else 0;
    hi := if n + limit <= |rows| then n + limit else |rows|;
    var list := List(rows, cursor, limit);
    ListIsSlice(rows, cursor, limit, n);
    lo := n;
    if n < |rows| && cursor == Some(rows[n].id) {
      assert list[0] == rows[n];
      lo := n + 1;
    }
    assert PageOf(rows, cursor, batch) == rows[lo..hi];
  }

  /** It leaves out no row of the snapshot beyond the cursor and up to its last. */
  lemma PageCovers(rows: seq<Row>, cursor: Option<int>, batch: nat)
    requires Ascending(rows) && batch > 0
    ensures IsPage(rows, cursor, PageOf(rows, cursor, batch))
  {
    var lo, hi := PageSlice(rows, cursor, batch);
    var page := PageOf(rows, cursor, batch);
    forall i | 0 <= i < |rows| && Beyond(cursor, rows[i].id)
      ensures page != [] && (rows[i].id <= page[|page| - 1].id ==> rows[i] in page)
    {
      assert page[|page| - 1] == rows[hi - 1];
      if rows[i].id <= rows[hi - 1].id {
        assert page[i - lo] == rows[i];
      }
    }
  }

  lemma {:induction false} VisibleRows(rows: seq<Row>)
    requires Ascending(rows)
    ensures Ascending(Visible(rows))
    ensures forall r :: r in Visible(rows) <==> r in rows && !r.design
  {
    if rows != [] {
      var n := |rows| - 1;
      VisibleRows(rows[..n]);
      assert rows == rows[..n] + [rows[n]];
    }
  }

  /** The id is in every snapshot that was read. */
  ghost predicate Throughout(dbs: seq<seq<Row>>, pages: nat, id: int) {
    forall k :: 0 <= k < pages && k < |dbs| ==> Has(dbs[k], id)
  }

  /** Visible rows beyond the cursor, their ids ascending. */
  ghost predicate RowsFrom(cursor: Option<int>, rows: seq<Row>) {
    Ascending(rows) && forall i :: 0 <= i < |rows| ==> Beyond(cursor, rows[i].id) && !rows[i].design
  }

  /** Every id beyond the cursor that was in each of the snapshots read. */
  ghost predicate LeavesNothing(dbs: seq<seq<Row>>, pages: nat, cursor: Option<int>, rows: seq<Row>) {
    forall id :: Throughout(dbs, pages, id) && Beyond(cursor, id) ==> Has(rows, id)
  }

  /** The yielded ids ascend from the cursor, and a scan that ended has left nothing out that
      was there throughout. */
  ghost predicate Yields(dbs: seq<seq<Row>>, cursor: Option<int>, s: Scanned) {
    RowsFrom(cursor, s.rows) && (s.ended ==> s.pages > 0 && LeavesNothing(dbs, s.pages, cursor, s.rows))
  }

  /** A page of new rows of a snapshot: it leaves out none beyond the cursor and up to its last. */
  ghost predicate IsPage(rows: seq<Row>, cursor: Option<int>, page: seq<Row>) {
    && Ascending(page)
    && (forall i :: 0 <= i < |page| ==> Beyond(cursor, page[i].id))
    && (forall i :: 0 <= i < |rows| && Beyond(cursor, rows[i].id) ==>
          page != [] && (rows[i].id <= page[|page| - 1].id ==> rows[i] in page))
  }

  lemma SeenWithin(page: seq<Row>, cursor: Option<int>)
    requires Ascending(page) && page != [] && forall i :: 0 <= i < |page| ==> Beyond(cursor, page[i].id)
    ensures forall i :: 0 <= i < |Visible(page)| ==>
      var r := Visible(page)[i]; Beyond(cursor, r.id) && r.id <= page[|page| - 1].id && !r.design
  {
    VisibleRows(page);
    var seen := Visible(page);
    forall i | 0 <= i < |seen| ensures Beyond(cursor, seen[i].id) && seen[i].id <= page[|page| - 1].id &&
      !seen[i].design {
      assert seen[i] in seen;
      var k :| 0 <= k < |page| && page[k] == seen[i];
    }
  }

  /** Rows up to `last` followed by rows beyond it. */
  lemma RowsJoin(seen: seq<Row>, rest: seq<Row>, cursor: Option<int>, last: int)
    requires RowsFrom(cursor, seen) && RowsFrom(Some(last), rest) && Beyond(cursor, last)
    requires forall i :: 0 <= i < |seen| ==> seen[i].id <= last
    ensures RowsFrom(cursor, seen + rest)
  {
  }

  lemma PageThenRows(rows: seq<Row>, cursor: Option<int>, page: seq<Row>, rest: seq<Row>)
    requires IsPage(rows, cursor, page) && page != [] && RowsFrom(Some(page[|page| - 1].id), rest)
    ensures RowsFrom(cursor, Visible(page) + rest)
  {
    VisibleRows(page);
    SeenWithin(page, cursor);
    RowsJoin(Visible(page), rest, cursor, page[|page| - 1].id);
  }

  lemma YieldsOne(dbs: seq<seq<Row>>, page: seq<Row>, seen: seq<Row>, rest: Scanned, id: int,
                     cursor: Option<int>)
    requires dbs != [] && page != [] && Throughout(dbs, rest.pages + 1, id) && Beyond(cursor, id)
    requires forall i :: 0 <= i < |dbs[0]| && Beyond(cursor, dbs[0][i].id) ==>
      (dbs[0][i].id <= page[|page| - 1].id ==> dbs[0][i] in page)
    requires forall r :: r in page && !r.design ==> r in seen
    requires Throughout(dbs[1..], rest.pages, id) && Beyond(Some(page[|page| - 1].id), id) ==> Has(rest.rows, id)
    ensures Has(seen + rest.rows, id)
  {
    if id <= page[|page| - 1].id {
      assert Has(dbs[0], id);
      var i :| 0 <= i < |dbs[0]| && dbs[0][i].id == id && !dbs[0][i].design;
      var k :| 0 <= k < |seen| && seen[k] == dbs[0][i];
      assert (seen + rest.rows)[k].id == id;
    } else {
      forall k | 0 <= k < rest.pages && k < |dbs[1..]| ensures Has(dbs[1..][k], id) {
        assert Has(dbs[k + 1], id);
      }
      var k :| 0 <= k < |rest.rows| && rest.rows[k].id == id && !rest.rows[k].design;
      assert (seen + rest.rows)[|seen| + k].id == id;
    }
  }

  /** Whatever was there throughout is in the page, or in what the rest of the scan yields. */
  lemma PageLeavesNothing(dbs: seq<seq<Row>>, cursor: Option<int>, page: seq<Row>, rest: Scanned)
    requires dbs != [] && page != [] && IsPage(dbs[0], cursor, page)
    requires LeavesNothing(dbs[1..], rest.pages, Some(page[|page| - 1].id), rest.rows)
    ensures LeavesNothing(dbs, rest.pages + 1, cursor, Visible(page) + rest.rows)
  {
    VisibleRows(page);
    forall id | Throughout(dbs, rest.pages + 1, id) && Beyond(cursor, id) ensures Has(Visible(page) + rest.rows, id) {
      YieldsOne(dbs, page, Visible(page), rest, id, cursor);
    }
  }

  lemma YieldsPage(dbs: seq<seq<Row>>, cursor: Option<int>, page: seq<Row>, rest: Scanned)
    requires dbs != [] && page != [] && IsPage(dbs[0], cursor, page)
    requires Yields(dbs[1..], Some(page[|page| - 1].id), rest)
    ensures Yields(dbs, cursor, Scanned(Visible(page) + rest.rows, rest.ended, rest.pages + 1))
  {
    PageThenRows(dbs[0], cursor, page, rest.rows);
    if rest.ended {
      PageLeavesNothing(dbs, cursor, page, rest);
    }
  }

  lemma NothingBeyond(dbs: seq<seq<Row>>, cursor: Option<int>, batch: nat)
    requires dbs != [] && Ascending(dbs[0]) && batch > 0 && PageOf(dbs[0], cursor, batch) == []
    ensures Yields(dbs, cursor, Scanned([], true, 1))
  {
    PageCovers(dbs[0], cursor, batch);
    forall id | Throughout(dbs, 1, id) ensures !Beyond(cursor, id) {
      assert Has(dbs[0], id);
    }
  }

  /**
   * Main result: whatever is inserted and deleted between pages, the cursor's own document
   * included, the yielded ids are strictly ascending, and a scan that ends has yielded every
   * visible id that was there throughout.
   */
  lemma {:induction false} ScanYields(dbs: seq<seq<Row>>, cursor: Option<int>, batch: nat)
    requires (forall k :: 0 <= k < |dbs| ==> Ascending(dbs[k])) && batch > 0
    requires Scan(dbs, cursor, batch).Ok?
    ensures Yields(dbs, cursor, Scan(dbs, cursor, batch).value)
    decreases |dbs|
  {
    if dbs != [] {
      var page := PageOf(dbs[0], cursor, batch);
      if page != [] {
        var last := Some(page[|page| - 1].id);
        ScanYields(dbs[1..], last, batch);
        PageCovers(dbs[0], cursor, batch);
        YieldsPage(dbs, cursor, page, Scan(dbs[1..], last, batch).value);
      } else {
        NothingBeyond(dbs, cursor, batch);
      }
    }
  }

  // ---------------------------------------------------------------- a database nobody changes

  function Repeat(db: seq<Row>, n: nat): seq<seq<Row>> { seq(n, i requires 0 <= i < n => db) }

  /** The cursor has passed exactly the first a rows. */
  ghost predicate At(db: seq<Row>, cursor: Option<int>, a: nat) {
    a <= |db| && forall i :: 0 <= i < |db| ==> (i >= a <==> Beyond(cursor, db[i].id))
  }

  /** On a fixed database the page is the next rows. */
  lemma PageIsNext(db: seq<Row>, cursor: Option<int>, batch: nat, a: nat) returns (hi: nat)
    requires Ascending(db) && batch > 0 && At(db, cursor, a)
    ensures a <= hi <= |db| && PageOf(db, cursor, batch) == db[a..hi] && (hi == a ==> a == |db|)
    ensures hi > a ==> At(db, Some(db[hi - 1].id), hi)
  {
    var lo;
    lo, hi := PageSlice(db, cursor, batch);
    assert lo == a by {
      assert lo < |db| ==> (lo >= a <==> Beyond(cursor, db[lo].id));
      assert a < |db| ==> (a >= lo <==> Beyond(cursor, db[a].id));
    }
  }

  lemma VisibleConcat(a: seq<Row>, b: seq<Row>)
    ensures Visible(a + b) == Visible(a) + Visible(b)
    decreases |b|
  {
    if b == [] {
      assert a + b == a;
    } else {
      var n := |b| - 1;
      assert (a + b)[..|a + b| - 1] == a + b[..n];
      VisibleConcat(a, b[..n]);
    }
  }

  lemma SplitVisible(db: seq<Row>, a: nat, hi: nat)
    requires a <= hi <= |db|
    ensures Visible(db[a..]) == Visible(db[a..hi]) + Visible(db[hi..])
  {
    assert db[a..] == db[a..hi] + db[hi..];
    VisibleConcat(db[a..hi], db[hi..]);
  }

  ghost predicate FullScan(r: Result<Scanned, ScanError>, rows: seq<Row>) {
    r.Ok? && r.value.ended && r.value.rows == Visible(rows)
  }

  lemma RepeatStep(db: seq<Row>, n: nat, cursor: Option<int>, batch: nat)
    requires n > 0
    ensures var page := PageOf(db, cursor, batch);
      Scan(Repeat(db, n), cursor, batch) ==
        if !Complete(page) then Err(MissingDocument)
        else if page == [] then Ok(Scanned([], true, 1))
        else Prepend(Visible(page), 1, Scan(Repeat(db, n - 1), Some(page[|page| - 1].id), batch))
  {
    var dbs := Repeat(db, n);
    ScanStep(dbs, 0, cursor, batch);
    assert dbs[0..] == dbs && dbs[0] == db && dbs[1..] == Repeat(db, n - 1);
  }

  lemma FixedPage(db: seq<Row>, cursor: Option<int>, batch: nat, a: nat, n: nat) returns (hi: nat)
    requires Ascending(db) && Complete(db) && batch > 0 && At(db, cursor, a) && n > 0
    ensures a <= hi <= |db| && (a < |db| ==> a < hi)
    ensures hi == a ==> Scan(Repeat(db, n), cursor, batch) == Ok(Scanned([], true, 1))
    ensures hi > a ==> At(db, Some(db[hi - 1].id), hi) &&
                       Scan(Repeat(db, n), cursor, batch) ==
                       Prepend(Visible(db[a..hi]), 1, Scan(Repeat(db, n - 1), Some(db[hi - 1].id), batch))
  {
    hi := PageIsNext(db, cursor, batch, a);
    RepeatStep(db, n, cursor, batch);
    assert Complete(db[a..hi]);
    assert hi > a ==> db[a..hi][hi - a - 1] == db[hi - 1];
  }

  /** A page before a full scan of the rest is a full scan. */
  lemma PageThenFull(rest: Result<Scanned, ScanError>, head: seq<Row>, tail: seq<Row>, all: seq<Row>)
    requires FullScan(rest, tail) && Visible(all) == Visible(head) + Visible(tail)
    ensures FullScan(Prepend(Visible(head), 1, rest), all)
  {
  }

  lemma {:induction false} FixedScanFrom(db: seq<Row>, cursor: Option<int>, batch: nat, a: nat, n: nat)
    requires Ascending(db) && Complete(db) && batch > 0 && At(db, cursor, a) && n > |db| - a
    ensures FullScan(Scan(Repeat(db, n), cursor, batch), db[a..])
    decreases n
  {
    var hi := FixedPage(db, cursor, batch, a, n);
    if hi > a {
      var next := Some(db[hi - 1].id);
      SplitVisible(db, a, hi);
      FixedScanFrom(db, next, batch, hi, n - 1);
      PageThenFull(Scan(Repeat(db, n - 1), next, batch), db[a..hi], db[hi..], db[a..]);
    } else {
      assert db[a..] == [];
    }
  }

  /** On a fixed, complete database the scan ends, after at most one page per row and one more,
      and yields exactly the visible rows. */
  lemma FixedScanIsFullScan(db: seq<Row>, batch: nat, n: nat)
    requires Ascending(db) && Complete(db) && batch > 0 && n > |db|
    ensures FullScan(Scan(Repeat(db, n), None, batch), db)
  {
    FixedScanFrom(db, None, batch, 0, n);
    assert db[0..] == db;
  }

  // ---------------------------------------------------------------- when a scan fails

  /** The snapshots read: each page goes on after the last row of the one before. */
  ghost predicate FailsOn(dbs: seq<seq<Row>>, cursor: Option<int>, batch: nat)
    decreases |dbs|
  {
    && dbs != []
    && var page := PageOf(dbs[0], cursor, batch);
       (exists i :: 0 <= i < |page| && page[i].doc == None)
       || (page != [] && FailsOn(dbs[1..], Some(page[|page| - 1].id), batch))
  }

  /** A scan fails exactly when some new row of a page it asks for comes without its document, design
      rows included. */
  lemma {:induction false} ScanFailsIff(dbs: seq<seq<Row>>, cursor: Option<int>, batch: nat)
    ensures Scan(dbs, cursor, batch).Err? <==> FailsOn(dbs, cursor, batch)
    decreases |dbs|
  {
    if dbs != [] {
      var page := PageOf(dbs[0], cursor, batch);
      if page != [] {
        ScanFailsIff(dbs[1..], Some(page[|page| - 1].id), batch);
      }
    }
  }
}
