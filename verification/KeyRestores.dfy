/**
 * What a restore does when nobody else writes the two stores. Its swap and the swap of the strip
 * move it falls back to may each lose their reply, be refused, or run late: the moved entry is
 * then still in exactly one of the two stores, and what each answer means is stated exactly.
 *
 * The stores are in one of four states throughout: as the move left them, as they were before it,
 * or as a strip move planned on either of the two writes them.
 */
module KeyRestores {
  import opened Wrappers
  import opened KeyEntries
  import opened KeyTransfers
  import opened KeySteps
  import opened KeyTruth

  /** The stores of a record in its own order; the strip move runs in the other order. */
  function Swap2(r: Raws): Raws { (r.1, r.0) }

  /** m is the record of a move that took r to Written(m). */
  ghost predicate Recorded(c: Codec, job: Job, r: Raws, m: Move) {
    && c.Valid() && job.MoveJob? && job.from != job.to
    && Planned(c, job, r, m) && m.lastkey == job.key && m.udid == job.device
    && AllWellFormed(c, r.0) && AllWellFormed(c, r.1)
  }

  lemma WrittenWellFormed(c: Codec, job: Job, r: Raws, m: Move)
    requires Recorded(c, job, r, m)
    ensures AllWellFormed(c, Written(m).1) && AllWellFormed(c, Written(m).0)
  {
    var f, target := Subject(c, job, r), c.Entries(r.1).value;
    assert WellFormed(c.sha, c.Entries(r.0).value[f.index]);
    MovedKeepsCore(f.entry, job.Source(), job.Target(), job.Udid(), m.at, false, target);
  }

  lemma {:induction false} SameCounts(entries: seq<Value>, a: Value, b: Value)
    requires IsEntry(a) && IsEntry(b) && Text(a, "key") == Text(b, "key") && Text(a, "hash") == Text(b, "hash")
    ensures CountSameKey(entries, a) == CountSameKey(entries, b)
  {
    if entries != [] { SameCounts(entries[..|entries| - 1], a, b); }
  }

  // ---------------------------------------------------------------- the strip move's plans

  /** The stores in the strip move's order: as they were before the move, or as the move left them. */
  function Base(r: Raws, m: Move, early: bool): Raws { if early then Swap2(r) else Swap2(Written(m)) }

  /** plan is the swap the strip move plans on one of the two, for the entry e. */
  ghost predicate Strips(c: Codec, r: Raws, m: Move, e: Value, plan: Move, early: bool) {
    && Planned(c, RestoreJob(m), Base(r, m, early), plan)
    && e == Subject(c, RestoreJob(m), Base(r, m, early)).entry
  }

  /** The entry the record moved, as the move wrote it. */
  function MovedForm(c: Codec, job: Job, r: Raws, m: Move): Value
    requires Planned(c, job, r, m)
  {
    MovedEntry(Subject(c, job, r).entry, job.Source(), job.Target(), job.Udid(), m.at, false, c.Entries(r.1).value)
  }

  /** A hit that lastkey identifies is the entry it identifies. */
  lemma OnlyHitIsFound(sha: Sha, entries: seq<Value>, lastkey: string, n: nat)
    requires n < |entries| && Hit(sha, entries[n], lastkey) && FindDeviceKey(sha, entries, lastkey).Found?
    ensures FindDeviceKey(sha, entries, lastkey) == Found(n, entries[n])
  {
    FoundIffOnlyHit(sha, entries, lastkey, FindDeviceKey(sha, entries, lastkey).index);
  }

  /** The record's lastkey hits the moved entry. */
  lemma MovedIsHit(c: Codec, job: Job, r: Raws, m: Move)
    requires Recorded(c, job, r, m)
    ensures var n := |c.Entries(r.1).value|;
      && n < |c.Entries(Written(m).1).value| && c.Entries(Written(m).1).value[n] == MovedForm(c, job, r, m)
      && Hit(c.sha, MovedForm(c, job, r, m), m.lastkey)
  {
    var f, target := Subject(c, job, r), c.Entries(r.1).value;
    var moved := MovedForm(c, job, r, m);
    MovedKeepsCore(f.entry, job.Source(), job.Target(), job.Udid(), m.at, false, target);
    assert c.Entries(Written(m).1).value[|target|] == moved;
    FoundIffOnlyHit(c.sha, c.Entries(r.0).value, job.key, f.index);
    assert Candidates(c.sha, moved) == Candidates(c.sha, f.entry);
  }

  /** On the stores the move left, lastkey can only name the moved entry. */
  lemma LastkeyNamesMoved(c: Codec, job: Job, r: Raws, m: Move)
    requires Recorded(c, job, r, m) && Subject(c, RestoreJob(m), Swap2(Written(m))).Found?
    ensures var g := Subject(c, RestoreJob(m), Swap2(Written(m)));
      g.index == |c.Entries(r.1).value| && g.entry == MovedForm(c, job, r, m)
  {
    MovedIsHit(c, job, r, m);
    OnlyHitIsFound(c.sha, c.Entries(Written(m).1).value, m.lastkey, |c.Entries(r.1).value|);
  }

  lemma MovedIsSubject(c: Codec, job: Job, r: Raws, m: Move)
    requires Recorded(c, job, r, m)
    ensures var e, moved := Subject(c, job, r).entry, MovedForm(c, job, r, m);
      && IsEntry(e) && IsEntry(moved) && Text(moved, "key") == Text(e, "key") && Text(moved, "hash") == Text(e, "hash")
      && SameKey(moved, e) && SameKey(e, moved) && Core(moved) == Core(e)
  {
    var f := Subject(c, job, r);
    assert WellFormed(c.sha, c.Entries(r.0).value[f.index]);
    MovedKeepsCore(f.entry, job.Source(), job.Target(), job.Udid(), m.at, false, c.Entries(r.1).value);
  }

  /** How often the entry the record moved is in a store. */
  function Here(c: Codec, job: Job, r: Raws, raw: Option<string>): nat {
    if Subject(c, job, r).Found? then Count(c, raw, Subject(c, job, r).entry) else 0
  }

  lemma BaseCounts(c: Codec, job: Job, r: Raws, m: Move)
    requires Recorded(c, job, r, m)
    ensures Here(c, job, r, r.0) == 1 && Here(c, job, r, r.1) == 0
    ensures Here(c, job, r, Written(m).0) == 0 && Here(c, job, r, Written(m).1) == 1
  {
    PlanMovesOneCopy(c, job, r, m);
  }

  lemma CountWithout(entries: seq<Value>, i: nat, e: Value)
    requires i < |entries|
    ensures CountSameKey(RemoveAt(entries, i), e) <= CountSameKey(entries, e)
  {
    assert entries == entries[..i] + ([entries[i]] + entries[i + 1..]);
    CountConcat(entries[..i], [entries[i]] + entries[i + 1..], e);
    CountConcat([entries[i]], entries[i + 1..], e);
    CountConcat(entries[..i], entries[i + 1..], e);
  }

  /** The stripped form of another entry is not this one. */
  lemma StrippedIsOther(home: seq<Value>, i: nat, g: Value, x: Value)
    requires i < |home| && IsEntry(g) && IsEntry(x) && Text(x, "key") == Text(g, "key") &&
      Text(x, "hash") == Text(g, "hash")
    requires !HoldsSameKey(home, g)
    ensures CountSameKey(home + [x], home[i]) == CountSameKey(home, home[i])
  {
    CountConcat(home, [x], home[i]);
    CountOne(x, home[i]);
    assert !SameKey(home[i], g);
  }

  /** The lists the strip move writes on the old stores. */
  lemma OtherLists(c: Codec, r: Raws, m: Move, g: Value, plan: Move) returns (x: Value)
    requires Readable(c, r) && Strips(c, r, m, g, plan, true)
    ensures IsEntry(g) && !HoldsSameKey(c.Entries(r.0).value, g)
    ensures var i := Subject(c, RestoreJob(m), Swap2(r)).index;
      i < |c.Entries(r.1).value| && c.parse(plan.after.0) == Some(RemoveAt(c.Entries(r.1).value, i))
    ensures c.parse(plan.after.1) == Some(c.Entries(r.0).value + [x])
    ensures IsEntry(x) && Core(x) == Core(g) && Text(x, "key") == Text(g, "key") && Text(x, "hash") == Text(g, "hash")
  {
    x := MovedEntry(g, m.target, m.source, m.udid, plan.at, true, c.Entries(r.0).value);
    MovedKeepsCore(g, m.target, m.source, m.udid, plan.at, true, c.Entries(r.0).value);
  }

  /** On the old stores the strip move takes another entry, and leaves this one where it is. */
  lemma OtherStripped(c: Codec, job: Job, r: Raws, m: Move, g: Value, plan: Move)
    requires Recorded(c, job, r, m) && Strips(c, r, m, g, plan, true)
    ensures Here(c, job, r, Written(plan).1) == 1 && Here(c, job, r, Written(plan).0) == 0
  {
    var x := OtherLists(c, r, m, g, plan);
    BaseCounts(c, job, r, m);
    StrippedIsOther(c.Entries(r.0).value, Subject(c, job, r).index, g, x);
    CountWithout(c.Entries(r.1).value, Subject(c, RestoreJob(m), Swap2(r)).index, Subject(c, job, r).entry);
  }

  /** Either way the strip move's swap leaves the entry once at home and not away. */
  lemma StripCounts(c: Codec, job: Job, r: Raws, m: Move, e: Value, plan: Move, early: bool)
    requires Recorded(c, job, r, m) && Strips(c, r, m, e, plan, early)
    ensures Here(c, job, r, Written(plan).1) == 1 && Here(c, job, r, Written(plan).0) == 0
    ensures Written(plan) != Base(r, m, early) && Written(plan) != Swap2(Written(m))
  {
    BaseCounts(c, job, r, m);
    WrittenWellFormed(c, job, r, m);
    PlanMovesOneCopy(c, RestoreJob(m), Base(r, m, early), plan);
    MovedIsSubject(c, job, r, m);
    if early {
      OtherStripped(c, job, r, m, e, plan);
    } else {
      LastkeyNamesMoved(c, job, r, m);
      SameCounts(c.Entries(Written(plan).1).value, e, Subject(c, job, r).entry);
      SameCounts(c.Entries(Written(plan).0).value, e, Subject(c, job, r).entry);
    }
  }

  // ---------------------------------------------------------------- what the swaps do

  lemma BasesReadable(c: Codec, job: Job, r: Raws, m: Move)
    requires Recorded(c, job, r, m)
    ensures Readable(c, Swap2(r)) && Readable(c, Swap2(Written(m))) && Swap2(r) != Swap2(Written(m))
    ensures r.0 != Written(m).0 && r.1 != Written(m).1
  {
    WrittenDiffers(c, job, r, m);
  }

  /** The restore's own swap applies exactly on the stores the move left, and gives back the old ones. */
  lemma BackOnMoved(c: Codec, stores: Stores, job: Job, r: Raws, m: Move)
    requires Recorded(c, job, r, m) && Readable(c, At(stores, RestoreJob(m)))
    ensures var now, swapped := At(stores, RestoreJob(m)), At(Swapped(stores, Back(m)), RestoreJob(m));
      && (Matches(stores, Back(m)) <==> now == Swap2(Written(m)))
      && swapped == if now == Swap2(Written(m)) then Swap2(r) else now
  {
    var now := At(stores, RestoreJob(m));
    WiresTell(c, now.0, Written(m).1);
    WiresTell(c, now.1, Written(m).0);
    assert Wire(r.0) == "" ==> r.0 == None;
    assert Wire(r.1) == "" ==> r.1 == None;
  }

  lemma StripOnBase(c: Codec, stores: Stores, job: Job, r: Raws, m: Move, e: Value, plan: Move, early: bool)
    requires Recorded(c, job, r, m) && Strips(c, r, m, e, plan, early) && Readable(c, At(stores, RestoreJob(m)))
    ensures var now, swapped := At(stores, RestoreJob(m)), At(Swapped(stores, Forth(plan)), RestoreJob(m));
      && (Matches(stores, Forth(plan)) <==> now == Base(r, m, early))
      && swapped == if now == Base(r, m, early) then Written(plan) else now
  {
    SwapOnBase(c, stores, RestoreJob(m), Base(r, m, early), plan);
  }

  // ---------------------------------------------------------------- the restore's invariant

  predicate AtBase(r: Raws, m: Move, now: Raws) { now == Swap2(Written(m)) || now == Swap2(r) }

  /** The strip plan that was sent, if any: for which entry, and on which of the two stores it was made. */
  datatype Strip = NoStrip | Strip(e: Value, plan: Move, early: bool)

  ghost predicate Made(c: Codec, r: Raws, m: Move, k: Strip) {
    k.Strip? && Strips(c, r, m, k.e, k.plan, k.early)
  }

  /** What the stores can be once a strip plan was made. */
  predicate PlanState(r: Raws, m: Move, k: Strip, now: Raws)
    requires k.Strip?
  {
    now == Swap2(r) || now == Written(k.plan) || (!k.early && now == Swap2(Written(m)))
  }

  ghost predicate Knows(w: World, id: nat, r: Raws, m: Move, k: Strip, made: bool) {
    made && k.Strip? && Mine(w, id, {Back(m), Forth(k.plan)}) && PlanState(r, m, k, At(w.stores, RestoreJob(m)))
  }

  /** The strip move answered success: the plan's swap applied, or the restore's own did. */
  predicate Backed(r: Raws, k: Strip, now: Raws)
    requires k.Strip?
  {
    now == Written(k.plan) || (!k.early && now == Swap2(r))
  }

  /** A store's text read earlier, in a state of the plan. */
  predicate RawState(r: Raws, m: Move, k: Strip, raw: Option<string>)
    requires k.Strip?
  {
    raw == r.1 || raw == Written(k.plan).0 || (!k.early && raw == Written(m).1)
  }

  /** made tells that the plan k was made as it says. */
  ghost predicate RestoreInv(w: World, id: nat, r: Raws, m: Move, k: Strip, made: bool)
    requires id in w.ops
  {
    var now := At(w.stores, RestoreJob(m));
    var left, home := Swap2(Written(m)), Swap2(r);
    match w.ops[id].pc
    case BackSent => now == left && Mine(w, id, {})
    case BackReplied(applied) => applied && now == home && Mine(w, id, {})
    case BackReadSource => AtBase(r, m, now) && Mine(w, id, {Back(m)})
    case BackReadTarget(raw) =>
      Mine(w, id, {Back(m)}) && ((now == left && raw == left.1) || (now == home && (raw == left.1 || raw == home.1)))
    case ReadSource(_) => AtBase(r, m, now) && Mine(w, id, {Back(m)})
    case ReadTarget(_, raw) =>
      Mine(w, id, {Back(m)}) && ((now == left && raw == left.0) || (now == home && (raw == left.0 || raw == home.0)))
    case Sent(_, e, plan) =>
      && made && k.Strip? && k.e == e && k.plan == plan
      && Mine(w, id, {Back(m)}) && AtBase(r, m, now) && (k.early ==> now == home)
    case Replied(_, e, plan, applied) =>
      && made && k.Strip? && k.e == e && k.plan == plan
      && Mine(w, id, {Back(m)}) && if applied then now == Written(plan)
        else AtBase(r, m, now) && (k.early ==> now == home)
    case CheckSource(e, plan) => Knows(w, id, r, m, k, made) && k.e == e && k.plan == plan
    case CheckTarget(e, plan, raw) => Knows(w, id, r, m, k, made) && k.e == e && k.plan == plan &&
      RawState(r, m, k, raw)
    case Restored => now == home && Mine(w, id, {Back(m)})
    case MovedBack => Knows(w, id, r, m, k, made) && Backed(r, k, now)
    case Refused(_) => (AtBase(r, m, now) && Mine(w, id, {Back(m)})) || Knows(w, id, r, m, k, made)
    case Moved(_) => false
  }

  ghost predicate RestoreOk(c: Codec, w: World, id: nat, job: Job, r: Raws, m: Move, k: Strip) {
    Recorded(c, job, r, m) && id in w.ops && w.ops[id].job == RestoreJob(m) &&
      RestoreInv(w, id, r, m, k, Made(c, r, m, k))
  }

  /** The stores are in one of the four states. */
  predicate StateOf(r: Raws, m: Move, now: Raws, k: Strip, made: bool) {
    AtBase(r, m, now) || (made && k.Strip? && now == Written(k.plan))
  }

  ghost predicate Kept(c: Codec, r: Raws, m: Move, now: Raws, k: Strip) { StateOf(r, m, now, k, Made(c, r, m, k)) }

  lemma InvIsState(w: World, id: nat, r: Raws, m: Move, k: Strip, made: bool)
    requires id in w.ops && RestoreInv(w, id, r, m, k, made)
    ensures StateOf(r, m, At(w.stores, RestoreJob(m)), k, made)
  {
  }

  lemma OkIsKept(c: Codec, w: World, id: nat, job: Job, r: Raws, m: Move, k: Strip)
    requires RestoreOk(c, w, id, job, r, m, k)
    ensures Kept(c, r, m, At(w.stores, RestoreJob(m)), k)
  {
    InvIsState(w, id, r, m, k, Made(c, r, m, k));
  }

  /** In each the entry is in exactly one store, and away only in the one the move left. */
  lemma KeptIsOnce(c: Codec, job: Job, r: Raws, m: Move, now: Raws, k: Strip)
    requires Recorded(c, job, r, m) && Kept(c, r, m, now, k)
    ensures Readable(c, now) && Here(c, job, r, now.0) + Here(c, job, r, now.1) == 1
    ensures now == Swap2(Written(m)) <==> Here(c, job, r, now.1) == 0
  {
    BaseCounts(c, job, r, m);
    BasesReadable(c, job, r, m);
    if !AtBase(r, m, now) {
      StripCounts(c, job, r, m, k.e, k.plan, k.early);
    }
  }

  // ---------------------------------------------------------------- answers and failures

  /** Reading the target after the restore's own swap ran late shows the entry twice, and refuses. */
  lemma TornPlanRefuses(c: Codec, op: Op, n: nat, job: Job, r: Raws, m: Move, texts: (string, string), at: string)
    requires Recorded(c, job, r, m) && op.job == RestoreJob(m)
    ensures var op' := Plan(c, op, n, Written(m).1, r.0, texts, at); op'.pc.Refused? && op' == op.(pc := op'.pc)
  {
    BasesReadable(c, job, r, m);
    if Subject(c, RestoreJob(m), Swap2(Written(m))).Found? {
      LastkeyNamesMoved(c, job, r, m);
      MovedIsSubject(c, job, r, m);
      assert c.Entries(r.0).value[Subject(c, job, r).index] == Subject(c, job, r).entry;
    }
  }

  lemma PlannedInv(w: World, w': World, id: nat, r: Raws, m: Move, k: Strip, made: bool, k': Strip, made': bool, op: Op)
    requires id in w.ops && w.ops[id].pc.ReadTarget? && RestoreInv(w, id, r, m, k, made)
    requires w' == w.(ops := w.ops[id := op])
    requires || op == w.ops[id] || op.pc.Refused?
             || (op.pc.Sent? && made' && k' == Strip(op.pc.entry, op.pc.plan, At(w.stores, RestoreJob(m)) == Swap2(r)))
    ensures RestoreInv(w', id, r, m, k', made')
  {
  }

  /** The strip plan is made on stores that were read together, or refused. */
  lemma PlanMade(c: Codec, op: Op, op': Op, now: Raws, job: Job, r: Raws, m: Move, k': Strip,
                 texts: (string, string), at: string)
    requires Recorded(c, job, r, m) && op.job == RestoreJob(m) && op.pc.ReadTarget?
    requires op' == Plan(c, op, op.pc.attempt, op.pc.rawSource, now.1, texts, at)
    requires now == Swap2(Written(m)) || now == Swap2(r)
    requires op.pc.rawSource == now.0 || (now.1 == r.0 && op.pc.rawSource == Written(m).1)
    requires op'.pc.Sent? ==> k' == Strip(op'.pc.entry, op'.pc.plan, now == Swap2(r))
    ensures op'.job == op.job && (op' == op || op'.pc.Refused? || (op'.pc.Sent? && Made(c, r, m, k')))
  {
    if op.pc.rawSource == now.0 {
      PlanIsPlanned(c, op, op.pc.attempt, now, texts, at);
    } else {
      TornPlanRefuses(c, op, op.pc.attempt, job, r, m, texts, at);
    }
  }

  lemma PlanKeeps(c: Codec, w: World, w': World, id: nat, job: Job, r: Raws, m: Move, k: Strip,
                  texts: (string, string), at: string) returns (k': Strip)
    requires RestoreOk(c, w, id, job, r, m, k) && w.ops[id].pc.ReadTarget?
    requires var pc := w.ops[id].pc;
      w' == w.(ops := w.ops[id := Plan(c, w.ops[id], pc.attempt, pc.rawSource, At(w.stores, RestoreJob(m)).1, texts,
                                       at)])
    ensures RestoreOk(c, w', id, job, r, m, k')
  {
    var op, op', now := w.ops[id], w'.ops[id], At(w.stores, RestoreJob(m));
    k' := if op'.pc.Sent? then Strip(op'.pc.entry, op'.pc.plan, now == Swap2(r)) else k;
    assert now == Swap2(Written(m)) || now == Swap2(r);
    assert op.pc.rawSource == now.0 || (now.1 == r.0 && op.pc.rawSource == Written(m).1);
    PlanMade(c, op, op', now, job, r, m, k', texts, at);
    PlannedInv(w, w', id, r, m, k, Made(c, r, m, k), k', Made(c, r, m, k'), op');
  }

  /** A decision for success has counted one copy in the target. */
  lemma SuccessCounts(c: Codec, op: Op, e: Value, plan: Move, source: Option<string>, target: Option<string>)
    requires Decide(c, op, e, plan, source, target).pc.MovedBack? && !op.pc.MovedBack?
    ensures Count(c, target, e) == 1
  {
  }

  /** A decision for success means the entry is back. */
  lemma SuccessIsBacked(c: Codec, op: Op, now: Raws, job: Job, r: Raws, m: Move, k: Strip, raw: Option<string>)
    requires Recorded(c, job, r, m) && op.job == RestoreJob(m)
    requires Made(c, r, m, k) && PlanState(r, m, k, now)
    requires Decide(c, op, k.e, k.plan, raw, now.1).pc.MovedBack? && !op.pc.MovedBack?
    ensures Backed(r, k, now)
  {
    WrittenWellFormed(c, job, r, m);
    SuccessCounts(c, op, k.e, k.plan, raw, now.1);
    var base := Base(r, m, k.early);
    PlanMovesOneCopy(c, RestoreJob(m), base, k.plan);
    assert now != base;
  }

  lemma DecidedInv(w: World, w': World, id: nat, r: Raws, m: Move, k: Strip, made: bool, op: Op)
    requires id in w.ops && w.ops[id].pc.CheckTarget? && RestoreInv(w, id, r, m, k, made)
    requires w' == w.(ops := w.ops[id := op])
    requires op.pc.Refused? || (op.pc.MovedBack? && Backed(r, k, At(w.stores, RestoreJob(m))))
    ensures RestoreInv(w', id, r, m, k, made)
  {
  }

  lemma DecideEnds(c: Codec, op: Op, e: Value, plan: Move, read: Raws)
    requires op.job.RestoreJob?
    ensures Decide(c, op, e, plan, read.0, read.1).pc.Refused? || Decide(c, op, e, plan, read.0, read.1).pc.MovedBack?
    ensures Decide(c, op, e, plan, read.0, read.1).job == op.job
  {
  }

  lemma DecideKeeps(c: Codec, w: World, w': World, id: nat, job: Job, r: Raws, m: Move, k: Strip, op: Op)
    requires RestoreOk(c, w, id, job, r, m, k) && w.ops[id].pc.CheckTarget?
    requires op == Decide(c, w.ops[id], k.e, k.plan, w.ops[id].pc.rawSource, At(w.stores, RestoreJob(m)).1)
    requires w' == w.(ops := w.ops[id := op])
    ensures RestoreOk(c, w', id, job, r, m, k)
  {
    var now, raw := At(w.stores, RestoreJob(m)), w.ops[id].pc.rawSource;
    DecideEnds(c, w.ops[id], k.e, k.plan, (raw, now.1));
    if op.pc.MovedBack? {
      SuccessIsBacked(c, w.ops[id], now, job, r, m, k, raw);
    }
    DecidedInv(w, w', id, r, m, k, Made(c, r, m, k), op);
  }

  lemma RereadKeeps(c: Codec, w: World, w': World, id: nat, job: Job, r: Raws, m: Move, k: Strip)
    requires RestoreOk(c, w, id, job, r, m, k) && w.ops[id].pc.BackReadTarget?
    requires w' == w.(ops := w.ops[id := OnAnswer(c, w.stores, w.ops[id], ("", ""), "")])
    ensures RestoreOk(c, w', id, job, r, m, k)
  {
    BasesReadable(c, job, r, m);
    WiresTell(c, w.ops[id].pc.rawSource, r.0);
  }

  predicate Ended(pc: Pc) { pc.Restored? || pc.MovedBack? || pc.Refused? || pc.Moved? }

  lemma EndedStays(c: Codec, w: World, id: nat, texts: (string, string), at: string)
    requires id in w.ops && Ended(w.ops[id].pc)
    ensures Next(c, w, Answer(id, texts, at)) == w && Next(c, w, Fail(id)) == w
  {
    assert w.ops[id := w.ops[id]] == w.ops;
  }

  lemma ReadKeeps(c: Codec, w: World, w': World, id: nat, r: Raws, m: Move, k: Strip, made: bool)
    requires id in w.ops && w.ops[id].job == RestoreJob(m) && RestoreInv(w, id, r, m, k, made)
    requires var pc := w.ops[id].pc; !Ended(pc) && !pc.BackReadTarget? && !pc.ReadTarget? && !pc.CheckTarget?
    requires w' == w.(ops := w.ops[id := OnAnswer(c, w.stores, w.ops[id], ("", ""), "")])
    ensures RestoreInv(w', id, r, m, k, made) && w'.ops[id].job == RestoreJob(m)
  {
  }

  lemma AnswerKeepsRestore(c: Codec, w: World, id: nat, job: Job, r: Raws, m: Move, k: Strip,
                           texts: (string, string), at: string) returns (k': Strip)
    requires RestoreOk(c, w, id, job, r, m, k)
    ensures RestoreOk(c, Next(c, w, Answer(id, texts, at)), id, job, r, m, k')
    ensures Next(c, w, Answer(id, texts, at)).stores == w.stores
  {
    var op := w.ops[id];
    var w' := w.(ops := w.ops[id := OnAnswer(c, w.stores, op, texts, at)]);
    AnswerStep(c, w, id, texts, at, OnAnswer(c, w.stores, op, texts, at));
    k' := k;
    if Ended(op.pc) {
      EndedStays(c, w, id, texts, at);
    } else if op.pc.ReadTarget? {
      k' := PlanKeeps(c, w, w', id, job, r, m, k, texts, at);
    } else if op.pc.BackReadTarget? {
      RereadKeeps(c, w, w', id, job, r, m, k);
    } else if op.pc.CheckTarget? {
      DecideKeeps(c, w, w', id, job, r, m, k, w'.ops[id]);
    } else {
      ReadKeeps(c, w, w', id, r, m, k, Made(c, r, m, k));
    }
  }

  lemma FailInv(w: World, w': World, id: nat, r: Raws, m: Move, k: Strip, made: bool)
    requires id in w.ops && w.ops[id].job == RestoreJob(m) && RestoreInv(w, id, r, m, k, made)
    requires w' == w.(ops := w.ops[id := OnFail(w.ops[id])])
    ensures RestoreInv(w', id, r, m, k, made) && w'.ops[id].job == RestoreJob(m)
  {
  }

  lemma FailKeepsRestore(c: Codec, w: World, id: nat, job: Job, r: Raws, m: Move, k: Strip)
    requires RestoreOk(c, w, id, job, r, m, k)
    ensures RestoreOk(c, Next(c, w, Fail(id)), id, job, r, m, k)
    ensures Next(c, w, Fail(id)).stores == w.stores
  {
    FailStep(c, w, id, OnFail(w.ops[id]));
    FailInv(w, Next(c, w, Fail(id)), id, r, m, k, Made(c, r, m, k));
  }

  lemma GiveUpKeepsRestore(c: Codec, w: World, id: nat, job: Job, r: Raws, m: Move, k: Strip)
    requires RestoreOk(c, w, id, job, r, m, k) && Pending(w.ops[id]).Some?
    ensures RestoreOk(c, Next(c, w, GiveUp(id)), id, job, r, m, k)
    ensures Next(c, w, GiveUp(id)).stores == w.stores
  {
    var op, s := w.ops[id], Pending(w.ops[id]).value;
    GiveUpStep(c, w, id, s, OnFail(op));
    if op.pc.BackSent? {
      MineStep(c, w, GiveUp(id), id, {}, {Back(m)});
    } else {
      MineStep(c, w, GiveUp(id), id, {Back(m)}, {Back(m), Forth(op.pc.plan)});
    }
  }

  // ---------------------------------------------------------------- swaps

  /** The restore's own swap undoes the move if the stores are as the move left them. */
  lemma BackEffect(c: Codec, stores: Stores, job: Job, r: Raws, m: Move, k: Strip)
    requires Recorded(c, job, r, m) && Kept(c, r, m, At(stores, RestoreJob(m)), k)
    ensures var now, now' := At(stores, RestoreJob(m)), At(Swapped(stores, Back(m)), RestoreJob(m));
      && (Matches(stores, Back(m)) <==> now == Swap2(Written(m)))
      && now' == (if now == Swap2(Written(m)) then Swap2(r) else now) && now' != Swap2(Written(m))
  {
    KeptIsOnce(c, job, r, m, At(stores, RestoreJob(m)), k);
    BackOnMoved(c, stores, job, r, m);
    BasesReadable(c, job, r, m);
  }

  /** The strip move's swap takes its entry back if the stores are those it was planned on. */
  lemma StripEffect(c: Codec, stores: Stores, job: Job, r: Raws, m: Move, k: Strip)
    requires Recorded(c, job, r, m) && Made(c, r, m, k) && Kept(c, r, m, At(stores, RestoreJob(m)), k)
    ensures var now, now' := At(stores, RestoreJob(m)), At(Swapped(stores, Forth(k.plan)), RestoreJob(m));
      && (Matches(stores, Forth(k.plan)) <==> now == Base(r, m, k.early))
      && now' == (if now == Base(r, m, k.early) then Written(k.plan) else now)
      && Written(k.plan) != Swap2(Written(m)) && Written(k.plan) != Base(r, m, k.early)
  {
    KeptIsOnce(c, job, r, m, At(stores, RestoreJob(m)), k);
    StripOnBase(c, stores, job, r, m, k.e, k.plan, k.early);
    StripCounts(c, job, r, m, k.e, k.plan, k.early);
  }

  /** After a step the stores are as the move left them only if they were and nothing applied. */
  predicate LeftOnly(w: World, w': World, m: Move, applies: bool) {
    At(w'.stores, RestoreJob(m)) == Swap2(Written(m)) <==> At(w.stores, RestoreJob(m)) == Swap2(Written(m)) && !applies
  }

  lemma RunKeepsRestore(c: Codec, w: World, id: nat, job: Job, r: Raws, m: Move, k: Strip)
    requires RestoreOk(c, w, id, job, r, m, k) && Pending(w.ops[id]).Some?
    ensures RestoreOk(c, Next(c, w, Run(id)), id, job, r, m, k)
    ensures LeftOnly(w, Next(c, w, Run(id)), m, Matches(w.stores, Pending(w.ops[id]).value))
  {
    var op, s := w.ops[id], Pending(w.ops[id]).value;
    RunStep(c, w, id, s, Swapped(w.stores, s), OnRun(w.stores, op));
    OkIsKept(c, w, id, job, r, m, k);
    BasesReadable(c, job, r, m);
    if op.pc.BackSent? {
      BackEffect(c, w.stores, job, r, m, k);
    } else {
      StripEffect(c, w.stores, job, r, m, k);
    }
  }

  lemma LateStep(c: Codec, w: World, e: Event, id: nat, s: Swap)
    requires OwnLate(w, e, id) && w.orphans[e.k].swap == s
    ensures Next(c, w, e).stores == Swapped(w.stores, s) && Next(c, w, e).ops == w.ops
  {
  }

  lemma BackLateInv(w: World, w': World, id: nat, r: Raws, m: Move, k: Strip, made: bool)
    requires id in w.ops && RestoreInv(w, id, r, m, k, made) && !Mine(w, id, {})
    requires w'.ops == w.ops && forall o :: o in w'.orphans && o.of == id ==> o in w.orphans
    requires Swap2(r) != Swap2(Written(m)) && (made && k.Strip? ==> Written(k.plan) != Swap2(Written(m)))
    requires var now, now' := At(w.stores, RestoreJob(m)), At(w'.stores, RestoreJob(m));
      now' == if now == Swap2(Written(m)) then Swap2(r) else now
    ensures RestoreInv(w', id, r, m, k, made)
  {
  }

  lemma StripLateInv(w: World, w': World, id: nat, r: Raws, m: Move, k: Strip, made: bool)
    requires id in w.ops && RestoreInv(w, id, r, m, k, made) && !Mine(w, id, {Back(m)})
    requires w'.ops == w.ops && forall o :: o in w'.orphans && o.of == id ==> o in w.orphans
    requires Swap2(r) != Swap2(Written(m)) && (made && k.Strip? ==> Written(k.plan) != Base(r, m, k.early))
    requires made && k.Strip? ==>
      var now, now' := At(w.stores, RestoreJob(m)), At(w'.stores, RestoreJob(m));
      now' == if now == Base(r, m, k.early) then Written(k.plan) else now
    ensures RestoreInv(w', id, r, m, k, made)
  {
  }

  /** An orphan of a restore is its own swap, or that of the strip plan it knows. */
  lemma OrphanIs(w: World, o: Orphan, id: nat, r: Raws, m: Move, k: Strip, made: bool)
    requires id in w.ops && RestoreInv(w, id, r, m, k, made) && o in w.orphans && o.of == id
    ensures !Mine(w, id, {})
    ensures o.swap == Back(m) || (made && k.Strip? && o.swap == Forth(k.plan) && !Mine(w, id, {Back(m)}))
  {
  }

  lemma LateKeepsRestore(c: Codec, w: World, e: Event, id: nat, job: Job, r: Raws, m: Move, k: Strip)
    requires RestoreOk(c, w, id, job, r, m, k) && OwnLate(w, e, id)
    ensures RestoreOk(c, Next(c, w, e), id, job, r, m, k)
    ensures LeftOnly(w, Next(c, w, e), m, Matches(w.stores, w.orphans[e.k].swap))
  {
    var s, made, w' := w.orphans[e.k].swap, Made(c, r, m, k), Next(c, w, e);
    OrphanIs(w, w.orphans[e.k], id, r, m, k, made);
    LateStep(c, w, e, id, s);
    OrphansShrink(c, w, e, id);
    OkIsKept(c, w, id, job, r, m, k);
    BasesReadable(c, job, r, m);
    if made {
      StripEffect(c, w.stores, job, r, m, k);
    }
    if s == Back(m) {
      BackEffect(c, w.stores, job, r, m, k);
      BackLateInv(w, w', id, r, m, k, made);
    } else {
      StripLateInv(w, w', id, r, m, k, made);
    }
  }

  lemma OtherInv(w: World, w': World, id: nat, r: Raws, m: Move, k: Strip, made: bool)
    requires id in w.ops && RestoreInv(w, id, r, m, k, made) && id in w'.ops && w'.ops[id] == w.ops[id]
    requires At(w'.stores, RestoreJob(m)) == At(w.stores, RestoreJob(m))
    requires forall o :: o in w'.orphans && o.of == id ==> o in w.orphans
    ensures RestoreInv(w', id, r, m, k, made)
  {
  }

  lemma OtherKeepsRestore(c: Codec, w: World, e: Event, id: nat, job: Job, r: Raws, m: Move, k: Strip)
    requires RestoreOk(c, w, id, job, r, m, k) && QuietStep(c, w, e, id, RestoreJob(m))
    requires e != Run(id) && e != Fail(id) && e != GiveUp(id) && !(e.Answer? && e.id == id) && !OwnLate(w, e, id)
    ensures RestoreOk(c, Next(c, w, e), id, job, r, m, k)
  {
    OtherStep(c, w, e, id);
    OrphansShrink(c, w, e, id);
    OtherInv(w, Next(c, w, e), id, r, m, k, Made(c, r, m, k));
  }

  // ---------------------------------------------------------------- runs

  /** A swap of operation id applies in this step. */
  predicate AppliesNow(w: World, e: Event, id: nat) {
    || (e == Run(id) && id in w.ops && Pending(w.ops[id]).Some? && Matches(w.stores, Pending(w.ops[id]).value))
    || (OwnLate(w, e, id) && Matches(w.stores, w.orphans[e.k].swap))
  }

  /** A swap of operation id applies in this run. */
  predicate Applies(c: Codec, w: World, events: seq<Event>, id: nat)
    decreases |events|
  {
    events != [] && (AppliesNow(w, events[0], id) || Applies(c, Next(c, w, events[0]), events[1..], id))
  }

  lemma RestoreStep(c: Codec, w: World, e: Event, id: nat, job: Job, r: Raws, m: Move, k: Strip) returns (k': Strip)
    requires RestoreOk(c, w, id, job, r, m, k) && QuietStep(c, w, e, id, RestoreJob(m))
    ensures RestoreOk(c, Next(c, w, e), id, job, r, m, k')
    ensures LeftOnly(w, Next(c, w, e), m, AppliesNow(w, e, id))
  {
    k' := k;
    if e.Answer? && e.id == id {
      k' := AnswerKeepsRestore(c, w, id, job, r, m, k, e.texts, e.at);
    } else if e == Fail(id) {
      FailKeepsRestore(c, w, id, job, r, m, k);
    } else if (e == GiveUp(id) || e == Run(id)) && Pending(w.ops[id]) == None {
      NothingPending(c, w, id);
    } else if e == GiveUp(id) {
      GiveUpKeepsRestore(c, w, id, job, r, m, k);
    } else if e == Run(id) {
      RunKeepsRestore(c, w, id, job, r, m, k);
    } else if OwnLate(w, e, id) {
      LateKeepsRestore(c, w, e, id, job, r, m, k);
    } else {
      OtherKeepsRestore(c, w, e, id, job, r, m, k);
    }
  }

  lemma {:induction false} RestoreRun(c: Codec, w: World, events: seq<Event>, id: nat, job: Job, r: Raws, m: Move,
                                      k: Strip)
    returns (k': Strip)
    requires RestoreOk(c, w, id, job, r, m, k) && Quiet(c, w, events, id, RestoreJob(m))
    ensures RestoreOk(c, After(c, w, events), id, job, r, m, k')
    ensures LeftOnly(w, After(c, w, events), m, Applies(c, w, events, id))
    decreases |events|
  {
    k' := k;
    if events != [] {
      var k1 := RestoreStep(c, w, events[0], id, job, r, m, k);
      k' := RestoreRun(c, Next(c, w, events[0]), events[1..], id, job, r, m, k1);
    }
  }

  // ---------------------------------------------------------------- what a restore promises

  /** The move is undone: both raw stores are the old ones, or the target's list is the old one and
      the entry is at its old owner again, last and without a transfer binding. */
  predicate BroughtBack(c: Codec, job: Job, r: Raws, now: Raws) {
    || now == r
    || (&& Subject(c, job, r).Found? && c.Entries(r.0).Some? && c.Entries(now.0).Some?
        && c.Entries(now.1) == c.Entries(r.1)
        && var e, i, es := Subject(c, job, r).entry, Subject(c, job, r).index, c.Entries(now.0).value;
           && i < |c.Entries(r.0).value| && es != []
           && es[..|es| - 1] == RemoveAt(c.Entries(r.0).value, i)
           && var x := es[|es| - 1]; x.Obj? && Core(x) == Core(e) && "transfer" !in x.fields)
  }

  /** What a caller can check before the move: the target holds another key that lastkey names. */
  predicate NamesAnother(c: Codec, job: Job, r: Raws) {
    && c.Entries(r.0).Some? && c.Entries(r.1).Some?
    && var g := FindDeviceKey(c.sha, c.Entries(r.1).value, job.Lastkey());
       g.Found? && !HoldsSameKey(c.Entries(r.0).value, g.entry)
  }

  /** The target lost that other key to the source. */
  predicate TookAnother(c: Codec, job: Job, r: Raws, now: Raws) {
    && NamesAnother(c, job, r) && c.Entries(now.0).Some?
    && var g, es := FindDeviceKey(c.sha, c.Entries(r.1).value, job.Lastkey()), c.Entries(now.0).value;
       && c.Entries(now.1) == Some(RemoveAt(c.Entries(r.1).value, g.index))
       && es != [] && es[..|es| - 1] == c.Entries(r.0).value && Core(es[|es| - 1]) == Core(g.entry)
  }

  lemma LastRemoved(entries: seq<Value>, x: Value)
    ensures RemoveAt(entries + [x], |entries|) == entries
  {
  }

  /** The lists the strip move writes when it takes the moved entry back. */
  lemma StripLists(c: Codec, job: Job, r: Raws, m: Move, e: Value, plan: Move) returns (x: Value)
    requires Recorded(c, job, r, m) && Strips(c, r, m, e, plan, false)
    ensures c.parse(plan.after.0) == c.Entries(r.1)
    ensures c.parse(plan.after.1) == Some(RemoveAt(c.Entries(r.0).value, Subject(c, job, r).index) + [x])
    ensures x.Obj? && Core(x) == Core(Subject(c, job, r).entry) && "transfer" !in x.fields
  {
    var target, moved := c.Entries(r.1).value, MovedForm(c, job, r, m);
    LastkeyNamesMoved(c, job, r, m);
    MovedIsSubject(c, job, r, m);
    x := MovedEntry(moved, m.target, m.source, m.udid, plan.at, true, c.Entries(Written(m).0).value);
    MovedKeepsCore(moved, m.target, m.source, m.udid, plan.at, true, c.Entries(Written(m).0).value);
    LastRemoved(target, moved);
  }

  lemma StripBringsBack(c: Codec, job: Job, r: Raws, m: Move, e: Value, plan: Move)
    requires Recorded(c, job, r, m) && Strips(c, r, m, e, plan, false)
    ensures BroughtBack(c, job, r, Swap2(Written(plan)))
  {
    var x := StripLists(c, job, r, m, e, plan);
    var home := RemoveAt(c.Entries(r.0).value, Subject(c, job, r).index);
    assert (home + [x])[..|home + [x]| - 1] == home;
  }

  lemma StripTakesAnother(c: Codec, job: Job, r: Raws, m: Move, e: Value, plan: Move)
    requires Recorded(c, job, r, m) && Strips(c, r, m, e, plan, true)
    ensures TookAnother(c, job, r, Swap2(Written(plan)))
  {
    var home := c.Entries(r.0).value;
    var x := OtherLists(c, r, m, e, plan);
    assert (home + [x])[..|home + [x]| - 1] == home;
  }

  lemma TakingIsNotBringing(c: Codec, job: Job, r: Raws, now: Raws)
    requires TookAnother(c, job, r, now)
    ensures !BroughtBack(c, job, r, now)
  {
    var away := c.Entries(r.1).value;
    assert |RemoveAt(away, FindDeviceKey(c.sha, away, job.Lastkey()).index)| < |away|;
  }

  /** A restore is under way from its first step, on the stores the move left. */
  ghost predicate Restoring(c: Codec, w: World, id: nat, job: Job, r: Raws, m: Move) {
    && Recorded(c, job, r, m) && id in w.ops && w.ops[id] == BeginOp(RestoreJob(m)) && Mine(w, id, {})
    && At(w.stores, job) == Written(m)
  }

  lemma KeptIsKnown(c: Codec, job: Job, r: Raws, m: Move, now: Raws, k: Strip)
    requires Recorded(c, job, r, m) && Kept(c, r, m, now, k)
    ensures now == Swap2(Written(m)) || BroughtBack(c, job, r, Swap2(now)) || TookAnother(c, job, r, Swap2(now))
  {
    if !AtBase(r, m, now) && k.early {
      StripTakesAnother(c, job, r, m, k.e, k.plan);
    } else if !AtBase(r, m, now) {
      StripBringsBack(c, job, r, m, k.e, k.plan);
    }
  }

  lemma EndedInv(w: World, id: nat, r: Raws, m: Move, k: Strip, made: bool)
    requires id in w.ops && RestoreInv(w, id, r, m, k, made)
    ensures var pc, now := w.ops[id].pc, At(w.stores, RestoreJob(m));
      && (pc.Restored? ==> now == Swap2(r))
      && (pc.MovedBack? ==> made && k.Strip? && Backed(r, k, now))
  {
  }
  lemma BackedIsNotLeft(c: Codec, w: World, id: nat, job: Job, r: Raws, m: Move, k: Strip)
    requires RestoreOk(c, w, id, job, r, m, k)
    ensures w.ops[id].pc.Restored? ==> At(w.stores, RestoreJob(m)) == Swap2(r)
    ensures w.ops[id].pc.MovedBack? ==> At(w.stores, RestoreJob(m)) != Swap2(Written(m))
  {
    EndedInv(w, id, r, m, k, Made(c, r, m, k));
    BasesReadable(c, job, r, m);
    if w.ops[id].pc.MovedBack? {
      StripCounts(c, job, r, m, k.e, k.plan, k.early);
    }
  }

  /**
   * Main result for restores. m is the record of a move from r, and nobody else has written or
   * writes the two stores; replies may be lost, reads may fail, and the swaps of the restore and
   * of its strip move may run late. Whatever is answered, the entry is in exactly one of the two
   * stores, and the move is still in place exactly when none of those swaps applied. Otherwise it
   * is undone, except that the strip move may have taken another key, which takes one that lastkey
   * names at the target. "restored" gives back both raw stores; "moved_back" never leaves the move
   * in place.
   */
  lemma RestoreAnswers(c: Codec, w: World, events: seq<Event>, id: nat, job: Job, r: Raws, m: Move)
    requires Restoring(c, w, id, job, r, m) && Quiet(c, w, events, id, RestoreJob(m))
    ensures var w' := After(c, w, events);
      var now := At(w'.stores, job);
      && id in w'.ops
      && Here(c, job, r, now.0) + Here(c, job, r, now.1) == 1
      && (now == Written(m) <==> !Applies(c, w, events, id))
      && (now == Written(m) || BroughtBack(c, job, r, now) || TookAnother(c, job, r, now))
      && (w'.ops[id].pc.Restored? ==> now == r)
      && (w'.ops[id].pc.MovedBack? ==> now != Written(m))
  {
    assert Swap2(At(w.stores, RestoreJob(m))) == At(w.stores, job);
    var k := RestoreRun(c, w, events, id, job, r, m, NoStrip);
    var w' := After(c, w, events);
    OkIsKept(c, w', id, job, r, m, k);
    KeptIsOnce(c, job, r, m, At(w'.stores, RestoreJob(m)), k);
    KeptIsKnown(c, job, r, m, At(w'.stores, RestoreJob(m)), k);
    BackedIsNotLeft(c, w', id, job, r, m, k);
  }
}
