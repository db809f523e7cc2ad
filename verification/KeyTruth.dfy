/**
 * What an answer of moveDeviceKey says about the stores when nobody else writes them meanwhile.
 * Replies may be lost, reads may fail, and a swap that was reported failed may still run later:
 * the answer is then true exactly when that swap does not run after the first re-read.
 */
module KeyTruth {
  import opened Wrappers
  import opened KeyEntries
  import opened KeyTransfers
  import opened KeySteps

  type Raws = (Option<string>, Option<string>)

  /** The two stores of a job, source first. */
  function At(stores: Stores, job: Job): Raws { (Raw(stores, job.Source()), Raw(stores, job.Target())) }

  function Written(m: Move): Raws { (Some(m.after.0), Some(m.after.1)) }

  // ---------------------------------------------------------------- counting an entry

  lemma {:induction false} CountNone(entries: seq<Value>, e: Value)
    requires forall j :: 0 <= j < |entries| ==> !SameKey(entries[j], e)
    ensures CountSameKey(entries, e) == 0
  {
    if entries != [] { CountNone(entries[..|entries| - 1], e); }
  }

  lemma {:induction false} CountConcat(a: seq<Value>, b: seq<Value>, e: Value)
    ensures CountSameKey(a + b, e) == CountSameKey(a, e) + CountSameKey(b, e)
  {
    if b == [] {
      assert a + b == a;
    } else {
      var n := |b| - 1;
      assert (a + b)[..|a + b| - 1] == a + b[..n];
      CountConcat(a, b[..n], e);
    }
  }

  lemma CountOne(x: Value, e: Value)
    ensures CountSameKey([x], e) == if SameKey(x, e) then 1 else 0
  {
    assert [x][..0] == [];
  }

  lemma CountAround(entries: seq<Value>, i: nat, e: Value)
    requires i < |entries|
    requires forall j :: 0 <= j < |entries| ==> (SameKey(entries[j], e) <==> j == i)
    ensures CountSameKey(entries, e) == 1 && CountSameKey(RemoveAt(entries, i), e) == 0
  {
    assert entries == entries[..i] + ([entries[i]] + entries[i + 1..]);
    CountConcat(entries[..i], [entries[i]] + entries[i + 1..], e);
    CountConcat([entries[i]], entries[i + 1..], e);
    CountConcat(entries[..i], entries[i + 1..], e);
    CountOne(entries[i], e);
    CountNone(entries[..i], e);
    CountNone(entries[i + 1..], e);
  }

  // ---------------------------------------------------------------- a planned swap

  ghost predicate AllWellFormed(c: Codec, raw: Option<string>) {
    c.Entries(raw).Some? && forall i :: 0 <= i < |c.Entries(raw).value| ==> WellFormed(c.sha, c.Entries(raw).value[i])
  }

  /** The entry a job is about, in the stores it starts from. */
  function Subject(c: Codec, job: Job, r: Raws): Found {
    if c.Entries(r.0) == None then NotIdentified else FindDeviceKey(c.sha, c.Entries(r.0).value, job.Lastkey())
  }

  /** plan is what the job sends when it has read r. */
  ghost predicate Planned(c: Codec, job: Job, r: Raws, plan: Move) {
    var f := Subject(c, job, r);
    && c.Entries(r.0).Some? && c.Entries(r.1).Some?
    && f.Found? && IsEntry(f.entry)
    && !HoldsSameKey(c.Entries(r.1).value, f.entry)
    && plan.source == job.Source() && plan.target == job.Target()
    && plan.before == (Wire(r.0), Wire(r.1))
    && c.parse(plan.after.0) == Some(RemoveAt(c.Entries(r.0).value, f.index))
    && c.parse(plan.after.1) == Some(c.Entries(r.1).value +
         [MovedEntry(f.entry, job.Source(), job.Target(), job.Udid(), plan.at, job.Strip(), c.Entries(r.1).value)])
  }

  lemma PlanIsPlanned(c: Codec, op: Op, attempt: nat, r: Raws, texts: (string, string), at: string)
    ensures var op' := Plan(c, op, attempt, r.0, r.1, texts, at);
      || op' == op
      || (op'.pc.Refused? && op'.pc.refusal !in {OutcomeUnknown, OutcomeInconsistent} && op' == op.(pc := op'.pc))
      || (op'.pc.Sent? && op'.job == op.job && Planned(c, op.job, r, op'.pc.plan) &&
        op'.pc.entry == Subject(c, op.job, r).entry)
  {
    if c.Entries(r.0).Some? {
      HitsAreHits(c.sha, c.Entries(r.0).value, op.job.Lastkey());
    }
  }

  /** How often the subject occurs in a store. */
  function Count(c: Codec, raw: Option<string>, e: Value): nat {
    if c.Entries(raw) == None then 0 else CountSameKey(c.Entries(raw).value, e)
  }

  /** The swap takes the one copy of the subject out of the source and puts one into the target. */
  lemma PlanMovesOneCopy(c: Codec, job: Job, r: Raws, plan: Move)
    requires Planned(c, job, r, plan) && AllWellFormed(c, r.0)
    ensures var e := Subject(c, job, r).entry;
      && Count(c, r.0, e) == 1 && Count(c, r.1, e) == 0
      && Count(c, Written(plan).0, e) == 0 && Count(c, Written(plan).1, e) == 1
  {
    var f := Subject(c, job, r);
    var source, target := c.Entries(r.0).value, c.Entries(r.1).value;
    forall j | 0 <= j < |source| ensures SameKey(source[j], f.entry) <==> j == f.index {
      FoundHoldsKeyAlone(c.sha, source, job.Lastkey(), j);
    }
    CountAround(source, f.index, f.entry);
    CountNone(target, f.entry);
    var moved := MovedEntry(f.entry, job.Source(), job.Target(), job.Udid(), plan.at, job.Strip(), target);
    MovedKeepsCore(f.entry, job.Source(), job.Target(), job.Udid(), plan.at, job.Strip(), target);
    assert WellFormed(c.sha, source[f.index]);
    assert Text(moved, "hash") == Text(f.entry, "hash");
    CountConcat(target, [moved], f.entry);
    CountOne(moved, f.entry);
  }

  lemma WrittenDiffers(c: Codec, job: Job, r: Raws, plan: Move)
    requires Planned(c, job, r, plan) && AllWellFormed(c, r.0)
    ensures r != Written(plan) && r.0 != Written(plan).0 && r.1 != Written(plan).1
  {
    PlanMovesOneCopy(c, job, r, plan);
  }

  ghost predicate Readable(c: Codec, r: Raws) { c.Entries(r.0).Some? && c.Entries(r.1).Some? }

  lemma WiresTell(c: Codec, a: Option<string>, b: Option<string>)
    requires c.Valid() && c.Entries(a).Some? && c.Entries(b).Some?
    ensures Wire(a) == Wire(b) <==> a == b
  {
  }

  /** A planned swap applies exactly on the stores it was planned on. */
  lemma SwapOnBase(c: Codec, stores: Stores, job: Job, base: Raws, plan: Move)
    requires c.Valid() && job.Source() != job.Target() && Planned(c, job, base, plan) && Readable(c, At(stores, job))
    ensures Matches(stores, Forth(plan)) <==> At(stores, job) == base
    ensures At(Swapped(stores, Forth(plan)), job) == if At(stores, job) == base then Written(plan) else At(stores, job)
  {
    var now := At(stores, job);
    WiresTell(c, now.0, base.0);
    WiresTell(c, now.1, base.1);
    assert plan.after.0 != "" && plan.after.1 != "";
  }

  // ---------------------------------------------------------------- who writes

  /** A swap that operation id gave up on runs after all. */
  predicate OwnLate(w: World, e: Event, id: nat) {
    e.RunLate? && e.k < |w.orphans| && w.orphans[e.k].of == id
  }

  /** Nobody but operation id writes the job's two stores in this step. */
  predicate QuietStep(c: Codec, w: World, e: Event, id: nat, job: Job) {
    e != Run(id) && !OwnLate(w, e, id) ==> At(Next(c, w, e).stores, job) == At(w.stores, job)
  }

  ghost predicate Quiet(c: Codec, w: World, events: seq<Event>, id: nat, job: Job)
    decreases |events|
  {
    events != [] ==> QuietStep(c, w, events[0], id, job) && Quiet(c, Next(c, w, events[0]), events[1..], id, job)
  }

  /** Where operation id stood when a swap it gave up on was applied by this step. */
  function LateNow(w: World, e: Event, id: nat): Option<Pc> {
    if OwnLate(w, e, id) && id in w.ops && Matches(w.stores, w.orphans[e.k].swap) then Some(w.ops[id].pc) else None
  }

  function Sooner(late: Option<Pc>, more: Option<Pc>): Option<Pc> { if late.Some? then late else more }

  /** Where operation id stood when a swap it gave up on was first applied; None when none was. */
  function LateAt(c: Codec, w: World, events: seq<Event>, id: nat): Option<Pc>
    decreases |events|
  {
    if events == [] then None else Sooner(LateNow(w, events[0], id), LateAt(c, Next(c, w, events[0]), events[1..], id))
  }

  /** The swaps operation id gave up on and that have not run are among these. */
  ghost predicate Mine(w: World, id: nat, swaps: set<Swap>) {
    forall o :: o in w.orphans && o.of == id ==> o.swap in swaps
  }

  lemma MineStep(c: Codec, w: World, e: Event, id: nat, swaps: set<Swap>, swaps': set<Swap>)
    requires Mine(w, id, swaps) && swaps <= swaps'
    requires e == GiveUp(id) && id in w.ops && Pending(w.ops[id]).Some? ==> Pending(w.ops[id]).value in swaps'
    ensures Mine(Next(c, w, e), id, swaps')
  {
    var w' := Next(c, w, e);
    forall o | o in w'.orphans && o.of == id ensures o.swap in swaps' {
      if o !in w.orphans {
        assert e.GiveUp? && o == Orphan(e.id, Pending(w.ops[e.id]).value);
      }
    }
  }

  ghost predicate OrphansHaveSenders(w: World) { forall o :: o in w.orphans ==> o.of in w.ops }

  lemma SendersStay(c: Codec, w: World, e: Event)
    requires OrphansHaveSenders(w)
    ensures OrphansHaveSenders(Next(c, w, e))
  {
  }

  /** In every run a new operation has given up on nothing. */
  lemma {:induction false} NewHasNoOrphan(c: Codec, w: World, events: seq<Event>, id: nat)
    requires OrphansHaveSenders(w) && id !in After(c, w, events).ops
    ensures Mine(After(c, w, events), id, {})
    decreases |events|
  {
    if events != [] {
      SendersStay(c, w, events[0]);
      NewHasNoOrphan(c, Next(c, w, events[0]), events[1..], id);
    }
  }

  // ---------------------------------------------------------------- the move's own invariant

  /** plan is the swap the job plans on r, for the entry e. */
  ghost predicate Asked(c: Codec, job: Job, r: Raws, e: Value, plan: Move) {
    job.Source() != job.Target() && Planned(c, job, r, plan) && e == Subject(c, job, r).entry
  }

  /** An abandoned swap, if it ran at all, ran before the first re-read was answered. */
  predicate BeforeReread(late: Option<Pc>) { late.Some? ==> late.value.CheckSource? }

  /** What a refusal after the swap was sent leaves; late tells when the swap ran late. */
  predicate RefusedRight(now: Raws, r: Raws, plan: Move, x: Refusal, late: Option<Pc>) {
    || (now == r && late == None && x != OutcomeInconsistent)
    || (now == Written(plan) && match x
                                case OutcomeUnknown => true
                                case OutcomeInconsistent => late.Some? && late.value.CheckTarget?
                                case _ => late.Some? && late.value.Refused?)
  }

  ghost predicate RefusedAfter(c: Codec, w: World, id: nat, job: Job, r: Raws, x: Refusal, late: Option<Pc>) {
    exists e, plan :: Asked(c, job, r, e, plan) && Mine(w, id, {Forth(plan)}) &&
      RefusedRight(At(w.stores, job), r, plan, x, late)
  }

  /** What the operation knows is true of the stores; r is what they were when it began. */
  ghost predicate MoveInv(c: Codec, w: World, id: nat, job: Job, r: Raws, late: Option<Pc>)
    requires id in w.ops
  {
    var now := At(w.stores, job);
    match w.ops[id].pc
    case ReadSource(_) => job.Source() != job.Target() && now == r && late == None && Mine(w, id, {})
    case ReadTarget(_, raw) => job.Source() != job.Target() && now == r && late == None && Mine(w, id, {}) && raw == r.0
    case Sent(_, e, plan) => Asked(c, job, r, e, plan) && now == r && late == None && Mine(w, id, {})
    case Replied(_, e, plan, applied) =>
      Asked(c, job, r, e, plan) && applied && now == Written(plan) && late == None && Mine(w, id, {})
    case CheckSource(e, plan) =>
      && Asked(c, job, r, e, plan) && Mine(w, id, {Forth(plan)})
      && ((now == r && late == None) || (now == Written(plan) && BeforeReread(late)))
    case CheckTarget(e, plan, raw) =>
      && Asked(c, job, r, e, plan) && Mine(w, id, {Forth(plan)})
      && (|| (now == r && late == None && raw == r.0)
          || (now == Written(plan) && BeforeReread(late) && raw == now.0)
          || (now == Written(plan) && late.Some? && late.value.CheckTarget? && raw == r.0))
    case Moved(m) =>
      && Planned(c, job, r, m) && Asked(c, job, r, Subject(c, job, r).entry, m)
      && Mine(w, id, {Forth(m)}) && now == Written(m) && BeforeReread(late)
    case Refused(x) =>
      || (now == r && late == None && Mine(w, id, {}) && x != OutcomeUnknown && x != OutcomeInconsistent)
      || RefusedAfter(c, w, id, job, r, x, late)
    case _ => false
  }

  /** The invariant of one operation: it is a move, its stores were readable, and it knows what it knows. */
  ghost predicate MoveOk(c: Codec, w: World, id: nat, job: Job, r: Raws, late: Option<Pc>) {
    && c.Valid() && job.MoveJob? && AllWellFormed(c, r.0)
    && id in w.ops && w.ops[id].job == job && MoveInv(c, w, id, job, r, late)
  }

  /** Two readings of the two stores decide what they show, torn or not. */
  lemma Decided(c: Codec, op: Op, r: Raws, read: Raws, plan: Move)
    requires Planned(c, op.job, r, plan) && AllWellFormed(c, r.0)
    requires read.0 == r.0 || read.0 == Written(plan).0
    requires read.1 == r.1 || read.1 == Written(plan).1
    ensures Decide(c, op, Subject(c, op.job, r).entry, plan, read.0, read.1) ==
            if read == r then Refuse(op, MoveFailed) else if read == Written(plan) then Success(op, plan)
            else Refuse(op, OutcomeInconsistent)
  {
    PlanMovesOneCopy(c, op.job, r, plan);
    WrittenDiffers(c, op.job, r, plan);
  }

  /** After a lost reply the re-read decides success exactly when the swap has applied. */
  lemma DecideIsTruthful(c: Codec, op: Op, r: Raws, now: Raws, plan: Move)
    requires Planned(c, op.job, r, plan) && AllWellFormed(c, r.0)
    requires now == r || now == Written(plan)
    ensures Decide(c, op, Subject(c, op.job, r).entry, plan, now.0, now.1) ==
            if now == r then Refuse(op, MoveFailed) else Success(op, plan)
  {
    Decided(c, op, r, now, plan);
  }

  // ---------------------------------------------------------------- every step keeps it

  lemma DecisionKeeps(c: Codec, w: World, w': World, id: nat, job: Job, r: Raws, late: Option<Pc>)
    requires MoveOk(c, w, id, job, r, late) && w.ops[id].pc.CheckTarget?
    requires var (op, pc) := (w.ops[id], w.ops[id].pc);
      w' == w.(ops := w.ops[id := Decide(c, op, pc.entry, pc.plan, pc.rawSource, At(w.stores, job).1)])
    ensures MoveOk(c, w', id, job, r, late)
  {
    var op, now := w.ops[id], At(w.stores, job);
    var plan, raw := op.pc.plan, op.pc.rawSource;
    Decided(c, op, r, (raw, now.1), plan);
    assert Mine(w', id, {Forth(plan)});
    if (raw, now.1) != Written(plan) {
      assert RefusedRight(now, r, plan, w'.ops[id].pc.refusal, late);
    }
  }

  lemma RefusedStays(c: Codec, w: World, w': World, id: nat, job: Job, r: Raws, x: Refusal, late: Option<Pc>)
    requires At(w'.stores, job) == At(w.stores, job) && forall o :: o in w'.orphans && o.of == id ==> o in w.orphans
    ensures RefusedAfter(c, w, id, job, r, x, late) ==> RefusedAfter(c, w', id, job, r, x, late)
  {
    if RefusedAfter(c, w, id, job, r, x, late) {
      var e, plan :| Asked(c, job, r, e, plan) && Mine(w, id, {Forth(plan)}) &&
        RefusedRight(At(w.stores, job), r, plan, x, late);
      assert Mine(w', id, {Forth(plan)});
    }
  }

  lemma AnswerKeeps(c: Codec, w: World, id: nat, job: Job, r: Raws, late: Option<Pc>, texts: (string, string),
                    at: string)
    requires MoveOk(c, w, id, job, r, late)
    ensures MoveOk(c, Next(c, w, Answer(id, texts, at)), id, job, r, late)
  {
    var op, now, e := w.ops[id], At(w.stores, job), Answer(id, texts, at);
    var w' := w.(ops := w.ops[id := OnAnswer(c, w.stores, op, texts, at)]);
    AnswerStep(c, w, id, texts, at, OnAnswer(c, w.stores, op, texts, at));
    match op.pc {
      case ReadTarget(n, _) =>
        PlanIsPlanned(c, op, n, r, texts, at);
      case CheckTarget(_, _, _) => DecisionKeeps(c, w, w', id, job, r, late);
      case Refused(x) => RefusedStays(c, w, w', id, job, r, x, late);
      case _ =>
    }
  }

  lemma FailKeeps(c: Codec, w: World, id: nat, job: Job, r: Raws, late: Option<Pc>)
    requires MoveOk(c, w, id, job, r, late)
    ensures MoveOk(c, Next(c, w, Fail(id)), id, job, r, late)
  {
    var op, now := w.ops[id], At(w.stores, job);
    var w' := w.(ops := w.ops[id := OnFail(op)]);
    FailStep(c, w, id, OnFail(op));
    if op.pc.CheckSource? || op.pc.CheckTarget? {
      assert RefusedRight(now, r, op.pc.plan, OutcomeUnknown, late);
      assert Mine(w', id, {Forth(op.pc.plan)});
    } else if op.pc.Refused? {
      RefusedStays(c, w, w', id, job, r, op.pc.refusal, late);
    }
  }

  lemma GiveUpKeeps(c: Codec, w: World, id: nat, job: Job, r: Raws, late: Option<Pc>)
    requires MoveOk(c, w, id, job, r, late) && Pending(w.ops[id]).Some?
    ensures MoveOk(c, Next(c, w, GiveUp(id)), id, job, r, late)
  {
    var op := w.ops[id];
    var plan := op.pc.plan;
    GiveUpStep(c, w, id, Forth(plan), OnFail(op));
    MineStep(c, w, GiveUp(id), id, {}, {Forth(plan)});
  }

  lemma RunKeeps(c: Codec, w: World, id: nat, job: Job, r: Raws, late: Option<Pc>)
    requires MoveOk(c, w, id, job, r, late) && Pending(w.ops[id]).Some?
    ensures MoveOk(c, Next(c, w, Run(id)), id, job, r, late)
  {
    var op := w.ops[id];
    var plan := op.pc.plan;
    SwapOnBase(c, w.stores, job, r, plan);
    RunStep(c, w, id, Forth(plan), Swapped(w.stores, Forth(plan)), OnRun(w.stores, op));
  }

  /** The abandoned swap runs: it applies once, on the stores it was planned on. */
  lemma LateSwap(c: Codec, w: World, e: Event, id: nat, job: Job, r: Raws, ent: Value, plan: Move)
    requires c.Valid() && id in w.ops && Asked(c, job, r, ent, plan) && AllWellFormed(c, r.0)
    requires At(w.stores, job) == r || At(w.stores, job) == Written(plan)
    requires OwnLate(w, e, id) && Mine(w, id, {Forth(plan)})
    ensures At(Next(c, w, e).stores, job) == Written(plan) && Next(c, w, e).ops == w.ops
    ensures LateNow(w, e, id) == if At(w.stores, job) == r then Some(w.ops[id].pc) else None
    ensures Mine(Next(c, w, e), id, {Forth(plan)})
  {
    assert w.orphans[e.k] in w.orphans;
    SwapOnBase(c, w.stores, job, r, plan);
    WrittenDiffers(c, job, r, plan);
    MineStep(c, w, e, id, {Forth(plan)}, {Forth(plan)});
  }

  lemma LateKeeps(c: Codec, w: World, e: Event, id: nat, job: Job, r: Raws, late: Option<Pc>)
    requires MoveOk(c, w, id, job, r, late) && OwnLate(w, e, id)
    ensures MoveOk(c, Next(c, w, e), id, job, r, Sooner(late, LateNow(w, e, id)))
  {
    assert w.orphans[e.k] in w.orphans;
    var pc := w.ops[id].pc;
    if pc.CheckSource? || pc.CheckTarget? {
      LateSwap(c, w, e, id, job, r, pc.entry, pc.plan);
    } else if pc.Moved? {
      LateSwap(c, w, e, id, job, r, Subject(c, job, r).entry, pc.move);
      WrittenDiffers(c, job, r, pc.move);
    } else {
      var x := pc.refusal;
      var ent, plan :| Asked(c, job, r, ent, plan) && Mine(w, id, {Forth(plan)}) &&
        RefusedRight(At(w.stores, job), r, plan, x, late);
      LateSwap(c, w, e, id, job, r, ent, plan);
      assert RefusedRight(Written(plan), r, plan, x, Sooner(late, LateNow(w, e, id)));
    }
  }

  lemma OtherStep(c: Codec, w: World, e: Event, id: nat)
    requires id in w.ops && e != Run(id) && e != Fail(id) && e != GiveUp(id) && !(e.Answer? && e.id == id) &&
      !OwnLate(w, e, id)
    ensures var w' := Next(c, w, e); id in w'.ops && w'.ops[id] == w.ops[id]
    ensures LateNow(w, e, id) == None
  {
  }

  lemma OrphansShrink(c: Codec, w: World, e: Event, id: nat)
    requires e != GiveUp(id)
    ensures forall o :: o in Next(c, w, e).orphans && o.of == id ==> o in w.orphans
    ensures forall swaps :: Mine(w, id, swaps) ==> Mine(Next(c, w, e), id, swaps)
  {
  }

  lemma OtherKeeps(c: Codec, w: World, e: Event, id: nat, job: Job, r: Raws, late: Option<Pc>)
    requires MoveOk(c, w, id, job, r, late) && QuietStep(c, w, e, id, job)
    requires e != Run(id) && e != Fail(id) && e != GiveUp(id) && !(e.Answer? && e.id == id) && !OwnLate(w, e, id)
    ensures MoveOk(c, Next(c, w, e), id, job, r, late)
  {
    var w', pc := Next(c, w, e), w.ops[id].pc;
    OtherStep(c, w, e, id);
    OrphansShrink(c, w, e, id);
    if pc.Refused? {
      RefusedStays(c, w, w', id, job, r, pc.refusal, late);
    }
  }

  lemma NothingPending(c: Codec, w: World, id: nat)
    requires id in w.ops && Pending(w.ops[id]) == None
    ensures Next(c, w, Run(id)) == w && Next(c, w, GiveUp(id)) == w
  {
  }

  lemma StepKeeps(c: Codec, w: World, e: Event, id: nat, job: Job, r: Raws, late: Option<Pc>)
    requires MoveOk(c, w, id, job, r, late) && QuietStep(c, w, e, id, job)
    ensures MoveOk(c, Next(c, w, e), id, job, r, Sooner(late, LateNow(w, e, id)))
  {
    if e.Answer? && e.id == id {
      AnswerKeeps(c, w, id, job, r, late, e.texts, e.at);
    } else if e == Fail(id) {
      FailKeeps(c, w, id, job, r, late);
    } else if (e == GiveUp(id) || e == Run(id)) && Pending(w.ops[id]) == None {
      NothingPending(c, w, id);
    } else if e == GiveUp(id) {
      GiveUpKeeps(c, w, id, job, r, late);
    } else if e == Run(id) {
      RunKeeps(c, w, id, job, r, late);
    } else if OwnLate(w, e, id) {
      LateKeeps(c, w, e, id, job, r, late);
    } else {
      OtherKeeps(c, w, e, id, job, r, late);
      OtherStep(c, w, e, id);
    }
  }

  lemma {:induction false} RunKeepsMove(c: Codec, w: World, events: seq<Event>, id: nat, job: Job, r: Raws,
                                        late: Option<Pc>)
    requires MoveOk(c, w, id, job, r, late) && Quiet(c, w, events, id, job)
    ensures MoveOk(c, After(c, w, events), id, job, r, Sooner(late, LateAt(c, w, events, id)))
    decreases |events|
  {
    if events != [] {
      StepKeeps(c, w, events[0], id, job, r, late);
      RunKeepsMove(c, Next(c, w, events[0]), events[1..], id, job, r, Sooner(late, LateNow(w, events[0], id)));
    }
  }

  // ---------------------------------------------------------------- main results

  /** Success is true: the subject was once in the source and not in the target, and is now once
      in the target and not in the source, in the texts the record names. */
  predicate MovedTruly(c: Codec, job: Job, r: Raws, now: Raws, m: Move) {
    && Subject(c, job, r).Found? && now == Written(m) && m.before == (Wire(r.0), Wire(r.1))
    && var e := Subject(c, job, r).entry;
       && Count(c, r.0, e) == 1 && Count(c, r.1, e) == 0
       && Count(c, now.0, e) == 0 && Count(c, now.1, e) == 1
  }

  /** A refusal is true: it says the move did not happen, and both stores are as they were. */
  predicate RefusedTruly(r: Raws, now: Raws, x: Refusal) { x != OutcomeInconsistent && now == r }

  /** What is true of the answer, given when a swap the move gave up on ran. */
  predicate AnswersTruly(c: Codec, job: Job, r: Raws, now: Raws, pc: Pc, late: Option<Pc>) {
    && (pc.Moved? ==> MovedTruly(c, job, r, now, pc.move) && BeforeReread(late))
    && (pc.Refused? && pc.refusal != OutcomeUnknown ==>
          && (RefusedTruly(r, now, pc.refusal) <==> late == None)
          && (late.Some? ==> late.value.CheckTarget? || late.value.Refused?)
          && (pc.refusal == OutcomeInconsistent <==> late.Some? && late.value.CheckTarget?))
  }

  lemma RefusalMeans(c: Codec, w: World, id: nat, job: Job, r: Raws, x: Refusal, late: Option<Pc>)
    requires AllWellFormed(c, r.0) && RefusedAfter(c, w, id, job, r, x, late)
    ensures AnswersTruly(c, job, r, At(w.stores, job), Refused(x), late)
  {
    var e, plan :| Asked(c, job, r, e, plan) && Mine(w, id, {Forth(plan)}) &&
      RefusedRight(At(w.stores, job), r, plan, x, late);
    WrittenDiffers(c, job, r, plan);
  }

  lemma OkAnswersTruly(c: Codec, w: World, id: nat, job: Job, r: Raws, late: Option<Pc>)
    requires MoveOk(c, w, id, job, r, late)
    ensures AnswersTruly(c, job, r, At(w.stores, job), w.ops[id].pc, late)
  {
    var pc := w.ops[id].pc;
    if pc.Moved? {
      PlanMovesOneCopy(c, job, r, pc.move);
    } else if pc.Refused? && RefusedAfter(c, w, id, job, r, pc.refusal, late) {
      RefusalMeans(c, w, id, job, r, pc.refusal, late);
    }
  }

  /**
   * Main result for moves. A move begins on stores r whose source entries are well formed, and
   * nobody else writes the two stores; replies may be lost, reads may fail, and a swap reported
   * failed may run late. Success is always true. A refusal other than the unreadable outcome is
   * true exactly when no swap the move gave up on has run; and one that has run, ran after the
   * first re-read was answered: between the two re-reads if and only if the answer is the
   * inconsistent outcome.
   */
  lemma MoveAnswersTruthfully(c: Codec, w: World, events: seq<Event>, id: nat, job: Job)
    requires c.Valid() && job.MoveJob? && id in w.ops && w.ops[id] == BeginOp(job) && Mine(w, id, {})
    requires AllWellFormed(c, Raw(w.stores, job.from)) && Quiet(c, w, events, id, job)
    ensures var w' := After(c, w, events);
      && id in w'.ops
      && AnswersTruly(c, job, At(w.stores, job), At(w'.stores, job), w'.ops[id].pc, LateAt(c, w, events, id))
  {
    var r := At(w.stores, job);
    RunKeepsMove(c, w, events, id, job, r, None);
    OkAnswersTruly(c, After(c, w, events), id, job, r, LateAt(c, w, events, id));
  }

  // ---------------------------------------------------------------- when the answer misleads

  lemma QuietCons(c: Codec, w: World, e: Event, events: seq<Event>, id: nat, job: Job)
    requires QuietStep(c, w, e, id, job) && Quiet(c, Next(c, w, e), events, id, job)
    ensures Quiet(c, w, [e] + events, id, job) && After(c, w, [e] + events) == After(c, Next(c, w, e), events)
  {
    assert ([e] + events)[1..] == events;
  }

  lemma Four(c: Codec, w: World, id: nat, job: Job, e: seq<Event>, w1: World, w2: World, w3: World)
    requires |e| == 4 && w1 == Next(c, w, e[0]) && w2 == Next(c, w1, e[1]) && w3 == Next(c, w2, e[2])
    requires QuietStep(c, w, e[0], id, job) && QuietStep(c, w1, e[1], id, job)
    requires QuietStep(c, w2, e[2], id, job) && QuietStep(c, w3, e[3], id, job)
    ensures Quiet(c, w, e, id, job) && After(c, w, e) == Next(c, w3, e[3])
  {
    AfterCons(c, w3, e[3], []);
    QuietCons(c, w3, e[3], [], id, job);
    QuietCons(c, w2, e[2], [e[3]], id, job);
    QuietCons(c, w1, e[1], [e[2]] + [e[3]], id, job);
    QuietCons(c, w, e[0], [e[1]] + ([e[2]] + [e[3]]), id, job);
    assert e == [e[0]] + ([e[1]] + ([e[2]] + [e[3]]));
  }

  /** A move that has sent its swap, with nobody else writing. */
  ghost predicate Sending(c: Codec, w: World, id: nat, job: Job, r: Raws) {
    MoveOk(c, w, id, job, r, None) && w.ops[id].pc.Sent?
  }

  /** The move gives up on its swap and reads its source. */
  lemma GiveUpAndRead(c: Codec, w: World, id: nat, job: Job, r: Raws) returns (w1: World, w2: World)
    requires Sending(c, w, id, job, r)
    ensures w1 == Next(c, w, GiveUp(id)) && w2 == Next(c, w1, Answer(id, ("", ""), ""))
    ensures var pc := w.ops[id].pc;
      && id in w2.ops && w2.ops[id].job == job && w2.ops[id].pc == CheckTarget(pc.entry, pc.plan, r.0)
      && w1.stores == w.stores && w2.stores == w.stores
      && w2.orphans == w.orphans + [Orphan(id, Forth(pc.plan))]
  {
    var op := w.ops[id];
    w1 := w.(ops := w.ops[id := OnFail(op)], orphans := w.orphans + [Orphan(id, Forth(op.pc.plan))]);
    GiveUpStep(c, w, id, Forth(op.pc.plan), OnFail(op));
    w2 := w1.(ops := w1.ops[id := OnAnswer(c, w1.stores, w1.ops[id], ("", ""), "")]);
    AnswerStep(c, w1, id, ("", ""), "", w2.ops[id]);
  }

  /** The abandoned swap, last among the orphans, runs on the stores it was planned on. */
  lemma LastRuns(c: Codec, w: World, id: nat, job: Job, r: Raws, plan: Move)
    requires c.Valid() && job.Source() != job.Target() && Planned(c, job, r, plan) && At(w.stores, job) == r
    requires w.orphans != [] && w.orphans[|w.orphans| - 1] == Orphan(id, Forth(plan))
    ensures var e := RunLate(|w.orphans| - 1);
      && OwnLate(w, e, id) && At(Next(c, w, e).stores, job) == Written(plan) && Next(c, w, e).ops == w.ops
  {
    SwapOnBase(c, w.stores, job, r, plan);
  }

  /** The second re-read, on the stores the swap was planned on. */
  lemma RefusedAnswer(c: Codec, w: World, id: nat, job: Job, r: Raws, plan: Move)
    requires Planned(c, job, r, plan) && AllWellFormed(c, r.0) && id in w.ops && w.ops[id].job == job
    requires w.ops[id].pc == CheckTarget(Subject(c, job, r).entry, plan, r.0) && At(w.stores, job) == r
    ensures Next(c, w, Answer(id, ("", ""), "")) == w.(ops := w.ops[id := Refuse(w.ops[id], MoveFailed)]) &&
      r != Written(plan)
  {
    WrittenDiffers(c, job, r, plan);
    Decided(c, w.ops[id], r, r, plan);
    AnswerStep(c, w, id, ("", ""), "", Refuse(w.ops[id], MoveFailed));
  }

  /** The second re-read, when the swap ran after the first. */
  lemma TornAnswer(c: Codec, w: World, id: nat, job: Job, r: Raws, plan: Move)
    requires Planned(c, job, r, plan) && AllWellFormed(c, r.0) && id in w.ops && w.ops[id].job == job
    requires w.ops[id].pc == CheckTarget(Subject(c, job, r).entry, plan, r.0) && At(w.stores, job) == Written(plan)
    ensures Next(c, w, Answer(id, ("", ""), "")) == w.(ops := w.ops[id := Refuse(w.ops[id], OutcomeInconsistent)])
  {
    WrittenDiffers(c, job, r, plan);
    Decided(c, w.ops[id], r, (r.0, Written(plan).1), plan);
    AnswerStep(c, w, id, ("", ""), "", Refuse(w.ops[id], OutcomeInconsistent));
  }

  /** Any move that has sent its swap can be told it failed and see it happen later. */
  lemma RefusedThenMoved(c: Codec, w: World, id: nat, job: Job, r: Raws) returns (events: seq<Event>)
    requires Sending(c, w, id, job, r)
    ensures Quiet(c, w, events, id, job)
    ensures var w' := After(c, w, events);
      id in w'.ops && w'.ops[id].pc == Refused(MoveFailed) && At(w'.stores, job) == Written(w.ops[id].pc.plan) != r
  {
    var plan, get := w.ops[id].pc.plan, Answer(id, ("", ""), "");
    var w1, w2 := GiveUpAndRead(c, w, id, job, r);
    RefusedAnswer(c, w2, id, job, r, plan);
    var w3 := Next(c, w2, get);
    var late := RunLate(|w.orphans|);
    LastRuns(c, w3, id, job, r, plan);
    events := [GiveUp(id), get, get, late];
    Four(c, w, id, job, events, w1, w2, w3);
  }

  /** Any move that has sent its swap can be answered the inconsistent outcome. */
  lemma TornIsInconsistent(c: Codec, w: World, id: nat, job: Job, r: Raws) returns (events: seq<Event>)
    requires Sending(c, w, id, job, r)
    ensures Quiet(c, w, events, id, job)
    ensures var w' := After(c, w, events);
      id in w'.ops && w'.ops[id].pc == Refused(OutcomeInconsistent) && At(w'.stores, job) == Written(w.ops[id].pc.plan)
  {
    var plan, get := w.ops[id].pc.plan, Answer(id, ("", ""), "");
    var w1, w2 := GiveUpAndRead(c, w, id, job, r);
    var late := RunLate(|w.orphans|);
    LastRuns(c, w2, id, job, r, plan);
    var w3 := Next(c, w2, late);
    TornAnswer(c, w3, id, job, r, plan);
    events := [GiveUp(id), get, late, get];
    Four(c, w, id, job, events, w1, w2, w3);
  }
}
