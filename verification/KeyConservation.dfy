/**
 * Conservation over every interleaving: what the stores hold, up to alias and transfer, is moved
 * between owners and never duplicated or lost. The one step that can break it is a restore of a
 * record whose texts were re-read after another writer had changed a store; when exactly, is stated.
 */
module KeyConservation {
  import opened Wrappers
  import opened KeyEntries
  import opened KeyTransfers
  import opened Sums

  // ---------------------------------------------------------------- what the stores hold

  /** The cores a stored text carries; a text that is not a list carries none. */
  function Held(c: Codec, text: string): multiset<Value> {
    if c.parse(text) == None then multiset{} else Cores(c.parse(text).value)
  }

  function HeldBy(c: Codec, stores: Stores, owner: string): multiset<Value> {
    if owner in stores then Held(c, stores[owner]) else multiset{}
  }

  /** How often x occurs in each owner's store. */
  function Counts(c: Codec, stores: Stores, x: Value): map<string, nat> {
    map o | o in stores :: Held(c, stores[o])[x]
  }

  /** How often x occurs among the cores of all entries of all owners. */
  ghost function Total(c: Codec, stores: Stores, x: Value): nat {
    Sum(Counts(c, stores, x))
  }

  lemma TotalSplit(c: Codec, stores: Stores, owner: string, x: Value)
    ensures Total(c, stores, x) == HeldBy(c, stores, owner)[x] + Total(c, stores - {owner}, x)
  {
    assert Counts(c, stores - {owner}, x) == Counts(c, stores, x) - {owner};
    if owner in stores {
      SumSplit(Counts(c, stores, x), owner);
    } else {
      assert Counts(c, stores, x) - {owner} == Counts(c, stores, x);
    }
  }

  lemma WriteLeavesOthers(stores: Stores, owner: string, next: string)
    ensures Write(stores, owner, next) - {owner} == stores - {owner}
  {
  }

  lemma HeldAfterWrite(c: Codec, stores: Stores, owner: string, next: string, x: Value)
    requires c.Valid()
    ensures HeldBy(c, Write(stores, owner, next), owner)[x] == Held(c, next)[x]
  {
  }

  /** A write replaces what one owner holds and nothing else. */
  lemma TotalWrite(c: Codec, stores: Stores, owner: string, next: string, x: Value)
    requires c.Valid()
    ensures Total(c, Write(stores, owner, next), x) + HeldBy(c, stores, owner)[x]
      == Total(c, stores, x) + Held(c, next)[x]
  {
    TotalSplit(c, stores, owner, x);
    TotalSplit(c, Write(stores, owner, next), owner, x);
    WriteLeavesOthers(stores, owner, next);
    HeldAfterWrite(c, stores, owner, next, x);
  }

  function Taken(c: Codec, s: Swap, x: Value): nat { Held(c, s.expected.0)[x] + Held(c, s.expected.1)[x] }

  function Given(c: Codec, s: Swap, x: Value): nat { Held(c, s.next.0)[x] + Held(c, s.next.1)[x] }

  /** The swap writes the same cores it expects to find. */
  ghost predicate Balanced(c: Codec, s: Swap) {
    forall x :: Taken(c, s, x) == Given(c, s, x)
  }

  /** A swap that applies changes the total by exactly what its texts differ in. */
  lemma SwapTotal(c: Codec, stores: Stores, s: Swap, x: Value)
    requires c.Valid() && s.source != s.target && Matches(stores, s)
    ensures Total(c, Swapped(stores, s), x) + Taken(c, s, x) == Total(c, stores, x) + Given(c, s, x)
  {
    TotalWrite(c, stores, s.source, s.next.0, x);
    TotalWrite(c, Write(stores, s.source, s.next.0), s.target, s.next.1, x);
  }

  ghost predicate SameTotals(c: Codec, stores: Stores, stores': Stores) {
    forall x :: Total(c, stores', x) == Total(c, stores, x)
  }

  /** The compare-and-swap conserves the totals exactly when it refuses or its texts balance. */
  lemma SwapConservesIff(c: Codec, stores: Stores, s: Swap)
    requires c.Valid() && s.source != s.target
    ensures SameTotals(c, stores, Swapped(stores, s)) <==> !Matches(stores, s) || Balanced(c, s)
  {
    if Matches(stores, s) {
      forall x ensures Total(c, Swapped(stores, s), x) + Taken(c, s, x) == Total(c, stores, x) + Given(c, s, x) {
        SwapTotal(c, stores, s, x);
      }
    }
  }

  // ---------------------------------------------------------------- the inductive invariant

  ghost predicate GoodPlan(c: Codec, m: Move) { m.source != m.target && Balanced(c, Forth(m)) }

  ghost predicate OpInv(c: Codec, op: Op) {
    var extra := if op.job.RestoreJob? then 1 else 0;
    var running := op.job.Source() != op.job.Target();
    match op.pc
    case BackSent => op.job.RestoreJob? && running && op.sent == 1
    case BackReplied(_) => op.job.RestoreJob? && running && op.sent == 1
    case BackReadSource => op.job.RestoreJob? && running && op.sent == 1
    case BackReadTarget(_) => op.job.RestoreJob? && running && op.sent == 1
    case ReadSource(n) => running && 1 <= n <= MAX_ATTEMPTS && op.sent == n - 1 + extra
    case ReadTarget(n, _) => running && 1 <= n <= MAX_ATTEMPTS && op.sent == n - 1 + extra
    case Sent(n, _, plan) => GoodPlan(c, plan) && running && n <= MAX_ATTEMPTS && op.sent == n + extra
    case Replied(n, _, plan, _) => GoodPlan(c, plan) && running && n <= MAX_ATTEMPTS && op.sent == n + extra
    case CheckSource(_, plan) => GoodPlan(c, plan) && op.sent <= MAX_ATTEMPTS + extra
    case CheckTarget(_, plan, _) => GoodPlan(c, plan) && op.sent <= MAX_ATTEMPTS + extra
    case Moved(m) => m.source != m.target && op.sent <= MAX_ATTEMPTS + extra
    case _ => op.sent <= MAX_ATTEMPTS + extra
  }

  ghost predicate SwapInv(c: Codec, s: Swap) { s.source != s.target && (s.back || Balanced(c, s)) }

  ghost predicate Inv(c: Codec, w: World) {
    && (forall id :: id in w.ops ==> OpInv(c, w.ops[id]))
    && (forall k :: 0 <= k < |w.orphans| ==> SwapInv(c, w.orphans[k].swap))
  }

  /** The two texts of a planned swap carry the cores of the two stores it read. */
  lemma PlanBalances(c: Codec, s: Swap, source: seq<Value>, target: seq<Value>, i: nat, moved: Value)
    requires c.Valid() && i < |source| && Core(moved) == Core(source[i])
    requires c.parse(s.expected.0) == Some(source) || (s.expected.0 == "" && source == [])
    requires c.parse(s.expected.1) == Some(target) || (s.expected.1 == "" && target == [])
    requires c.parse(s.next.0) == Some(RemoveAt(source, i)) && c.parse(s.next.1) == Some(target + [moved])
    ensures Balanced(c, s)
  {
    MoveConservesCores(source, target, i, moved);
    assert Held(c, s.expected.0) == Cores(source) && Held(c, s.expected.1) == Cores(target);
    assert Held(c, s.next.0) == Cores(RemoveAt(source, i)) && Held(c, s.next.1) == Cores(target + [moved]);
    forall x ensures Taken(c, s, x) == Given(c, s, x) {
      assert (Cores(RemoveAt(source, i)) + Cores(target + [moved]))[x] == (Cores(source) + Cores(target))[x];
    }
  }

  ghost predicate PlanOutcome(c: Codec, op: Op, attempt: nat, r: Op) {
    || r == op
    || (r.pc.Refused? && r == op.(pc := r.pc))
    || (r.pc.Sent? && r == Op(op.job, r.pc, op.sent + 1) && r.pc.attempt == attempt && GoodPlan(c, r.pc.plan))
  }

  lemma PlanIsGood(c: Codec, op: Op, attempt: nat, rawSource: Option<string>, rawTarget: Option<string>,
                   texts: (string, string), at: string)
    requires c.Valid() && op.job.Source() != op.job.Target()
    ensures PlanOutcome(c, op, attempt, Plan(c, op, attempt, rawSource, rawTarget, texts, at))
  {
    var job := op.job;
    var r := Plan(c, op, attempt, rawSource, rawTarget, texts, at);
    if r != op && !r.pc.Refused? {
      var source, target := c.Entries(rawSource).value, c.Entries(rawTarget).value;
      var f := FindDeviceKey(c.sha, source, job.Lastkey());
      HitsAreHits(c.sha, source, job.Lastkey());
      var moved := MovedEntry(f.entry, job.Source(), job.Target(), job.Udid(), at, job.Strip(), target);
      MovedKeepsCore(f.entry, job.Source(), job.Target(), job.Udid(), at, job.Strip(), target);
      PlanBalances(c, Forth(r.pc.plan), source, target, f.index, moved);
    }
  }

  lemma AnswerKeepsInv(c: Codec, stores: Stores, op: Op, texts: (string, string), at: string)
    requires c.Valid() && OpInv(c, op)
    ensures OpInv(c, OnAnswer(c, stores, op, texts, at))
  {
    if op.pc.ReadTarget? {
      PlanIsGood(c, op, op.pc.attempt, op.pc.rawSource, Raw(stores, op.job.Target()), texts, at);
    }
  }

  lemma FailKeepsInv(c: Codec, op: Op)
    requires OpInv(c, op)
    ensures OpInv(c, OnFail(op))
    ensures Pending(op).Some? ==> SwapInv(c, Pending(op).value)
  {
  }

  lemma RunOpKeepsInv(c: Codec, stores: Stores, op: Op)
    requires OpInv(c, op)
    ensures OpInv(c, OnRun(stores, op))
  {
  }

  lemma BeginKeepsInv(c: Codec, w: World, job: Job)
    requires Inv(c, w) && (job.MoveJob? || Answered(w, job.record))
    ensures OpInv(c, BeginOp(job))
  {
    if job.RestoreJob? {
      var other :| other in w.ops && w.ops[other].pc == Moved(job.record);
      assert OpInv(c, w.ops[other]);
    }
  }

  lemma SetOpKeepsInv(c: Codec, w: World, id: nat, op: Op)
    requires Inv(c, w) && OpInv(c, op)
    ensures Inv(c, w.(ops := w.ops[id := op]))
  {
  }

  /** Every step keeps the plans in flight balanced and the number of swaps within bounds. */
  lemma NextKeepsInv(c: Codec, w: World, e: Event)
    requires c.Valid() && Inv(c, w)
    ensures Inv(c, Next(c, w, e))
  {
    var w' := Next(c, w, e);
    if w' != w {
      match e
      case Begin(id, job) =>
        BeginKeepsInv(c, w, job);
        SetOpKeepsInv(c, w, id, BeginOp(job));
      case Answer(id, texts, at) =>
        AnswerKeepsInv(c, w.stores, w.ops[id], texts, at);
        SetOpKeepsInv(c, w, id, OnAnswer(c, w.stores, w.ops[id], texts, at));
      case Fail(id) =>
        FailKeepsInv(c, w.ops[id]);
        SetOpKeepsInv(c, w, id, OnFail(w.ops[id]));
      case GiveUp(id) =>
        FailKeepsInv(c, w.ops[id]);
        SetOpKeepsInv(c, w, id, OnFail(w.ops[id]));
      case Run(id) =>
        RunOpKeepsInv(c, w.stores, w.ops[id]);
        SetOpKeepsInv(c, w, id, OnRun(w.stores, w.ops[id]));
      case RunLate(k) =>
      case Create(_, _, _, _) =>
      case Revoke(_, _, _) =>
    }
  }

  lemma {:induction false} RunKeepsInv(c: Codec, w: World, events: seq<Event>)
    requires c.Valid() && Inv(c, w)
    ensures Inv(c, After(c, w, events))
    decreases |events|
  {
    if events != [] {
      NextKeepsInv(c, w, events[0]);
      RunKeepsInv(c, Next(c, w, events[0]), events[1..]);
    }
  }

  /** In every run a move sends at most three swaps; a restore sends one of its own first. */
  lemma AtMostThreeSwaps(c: Codec, stores: Stores, events: seq<Event>, id: nat)
    requires c.Valid() && id in After(c, Start(stores), events).ops
    ensures var op := After(c, Start(stores), events).ops[id];
      op.sent <= if op.job.RestoreJob? then 4 else 3
  {
    RunKeepsInv(c, Start(stores), events);
    assert OpInv(c, After(c, Start(stores), events).ops[id]);
  }

  // ---------------------------------------------------------------- conservation

  /** The swap the server runs in this step. */
  function SwapOf(w: World, e: Event): Option<Swap> {
    match e
    case Run(id) => if id in w.ops then Pending(w.ops[id]) else None
    case RunLate(k) => if k < |w.orphans| then Some(w.orphans[k].swap) else None
    case _ => None
  }

  lemma KeptAndRemoved(entries: seq<Value>, hashes: seq<string>)
    ensures Cores(entries) == Cores(Kept(entries, hashes)) + Cores(Removed(entries, hashes))
  {
    if entries != [] {
      var n := |entries| - 1;
      KeptAndRemoved(entries[..n], hashes);
      assert entries == entries[..n] + [entries[n]];
      CoresConcat(entries[..n], [entries[n]]);
      CoresConcat(Kept(entries[..n], hashes), [entries[n]]);
      CoresConcat(Removed(entries[..n], hashes), [entries[n]]);
      assert Kept(entries[..n], hashes) + [] == Kept(entries[..n], hashes);
      assert Removed(entries[..n], hashes) + [] == Removed(entries[..n], hashes);
    }
  }

  /** Nothing is gained or lost between w and w' beyond what create and revoke recorded. */
  ghost predicate ConservedAt(c: Codec, w: World, w': World, x: Value) {
    Total(c, w'.stores, x) + w'.revoked[x] + w.created[x] == Total(c, w.stores, x) + w.revoked[x] + w'.created[x]
  }

  ghost predicate Conserved(c: Codec, w: World, w': World) {
    forall x :: ConservedAt(c, w, w', x)
  }

  /** A step that runs a swap conserves exactly when the swap refuses or balances, and a move's
      swap always balances. */
  lemma SwapStepConservesIff(c: Codec, w: World, e: Event)
    requires c.Valid() && Inv(c, w) && SwapOf(w, e).Some?
    ensures Conserved(c, w, Next(c, w, e)) <==>
      !Matches(w.stores, SwapOf(w, e).value) || Balanced(c, SwapOf(w, e).value)
    ensures !SwapOf(w, e).value.back ==> Balanced(c, SwapOf(w, e).value)
  {
    var s, w' := SwapOf(w, e).value, Next(c, w, e);
    if e.Run? {
      assert OpInv(c, w.ops[e.id]);
    } else {
      assert SwapInv(c, w.orphans[e.k].swap);
    }
    assert SwapInv(c, s);
    assert w'.stores == Swapped(w.stores, s) && w'.created == w.created && w'.revoked == w.revoked;
    SwapConservesIff(c, w.stores, s);
    assert forall x :: ConservedAt(c, w, w', x) <==> Total(c, w'.stores, x) == Total(c, w.stores, x);
  }

  lemma CreatedText(c: Codec, entries: seq<Value>, added: Value, text: string, x: Value)
    requires c.parse(text) == Some(entries + [added])
    ensures Held(c, text)[x] == Cores(entries)[x] + multiset{Core(added)}[x]
  {
    CoresConcat(entries, [added]);
    assert CoreSeq([added]) == [Core(added)];
  }

  lemma CreateConserves(c: Codec, w: World, e: Event, x: Value)
    requires c.Valid() && e.Create?
    ensures ConservedAt(c, w, Next(c, w, e), x)
  {
    var w' := Next(c, w, e);
    if w' != w {
      var entries, added := c.Entries(Raw(w.stores, e.owner)).value, NewEntry(c.sha, e.key, e.alias);
      TotalWrite(c, w.stores, e.owner, e.text, x);
      CreatedText(c, entries, added, e.text, x);
      assert HeldBy(c, w.stores, e.owner) == Cores(entries);
      assert w'.created[x] == w.created[x] + multiset{Core(added)}[x];
    }
  }

  lemma RevokedText(c: Codec, entries: seq<Value>, hashes: seq<string>, text: string, x: Value)
    requires c.parse(text) == Some(Kept(entries, hashes))
    ensures Held(c, text)[x] + Cores(Removed(entries, hashes))[x] == Cores(entries)[x]
  {
    KeptAndRemoved(entries, hashes);
    var k, r := Cores(Kept(entries, hashes)), Cores(Removed(entries, hashes));
    assert Held(c, text) == k;
    assert (k + r)[x] == k[x] + r[x];
  }

  lemma RevokeConserves(c: Codec, w: World, e: Event, x: Value)
    requires c.Valid() && e.Revoke?
    ensures ConservedAt(c, w, Next(c, w, e), x)
  {
    var w' := Next(c, w, e);
    if w' != w {
      var entries := c.Entries(Raw(w.stores, e.owner)).value;
      TotalWrite(c, w.stores, e.owner, e.text, x);
      RevokedText(c, entries, e.hashes, e.text, x);
      assert HeldBy(c, w.stores, e.owner) == Cores(entries);
      var r := Cores(Removed(entries, e.hashes));
      assert w'.revoked == w.revoked + r;
      assert w'.revoked[x] == w.revoked[x] + r[x];
    }
  }

  ghost predicate RestoreBalances(c: Codec, w: World, e: Event) {
    var s := SwapOf(w, e);
    s.Some? && s.value.back && Matches(w.stores, s.value) ==> Balanced(c, s.value)
  }

  /** Every restore swap that applies in this run writes back as much as it takes away. */
  ghost predicate RestoresBalanced(c: Codec, w: World, events: seq<Event>)
    decreases |events|
  {
    events != [] ==> RestoreBalances(c, w, events[0]) && RestoresBalanced(c, Next(c, w, events[0]), events[1..])
  }

  lemma NextConserves(c: Codec, w: World, e: Event)
    requires c.Valid() && Inv(c, w) && RestoreBalances(c, w, e)
    ensures Conserved(c, w, Next(c, w, e))
  {
    if SwapOf(w, e).Some? {
      SwapStepConservesIff(c, w, e);
    } else if e.Create? {
      forall x ensures ConservedAt(c, w, Next(c, w, e), x) { CreateConserves(c, w, e, x); }
    } else if e.Revoke? {
      forall x ensures ConservedAt(c, w, Next(c, w, e), x) { RevokeConserves(c, w, e, x); }
    } else {
      assert Next(c, w, e).stores == w.stores;
    }
  }

  /** Conserving is transitive. */
  lemma ConservedChain(c: Codec, w: World, w1: World, w2: World)
    requires Conserved(c, w, w1) && Conserved(c, w1, w2)
    ensures Conserved(c, w, w2)
  {
    assert forall x :: ConservedAt(c, w, w1, x) && ConservedAt(c, w1, w2, x) ==> ConservedAt(c, w, w2, x);
  }

  /** Main result: over every interleaving of moves, restores, creates and revokes whose
      restores balance, the stores hold what they held, plus what was created, less what
      was revoked. */
  lemma {:induction false} RunConserves(c: Codec, w: World, events: seq<Event>)
    requires c.Valid() && Inv(c, w) && RestoresBalanced(c, w, events)
    ensures Conserved(c, w, After(c, w, events))
    decreases |events|
  {
    if events != [] {
      var w1 := Next(c, w, events[0]);
      NextConserves(c, w, events[0]);
      NextKeepsInv(c, w, events[0]);
      RunConserves(c, w1, events[1..]);
      ConservedChain(c, w, w1, After(c, w, events));
    }
  }

  /** Every step of the run conserves. */
  ghost predicate StepsConserve(c: Codec, w: World, events: seq<Event>)
    decreases |events|
  {
    events != [] ==> Conserved(c, w, Next(c, w, events[0])) && StepsConserve(c, Next(c, w, events[0]), events[1..])
  }

  lemma NextConservesIff(c: Codec, w: World, e: Event)
    requires c.Valid() && Inv(c, w)
    ensures Conserved(c, w, Next(c, w, e)) <==> RestoreBalances(c, w, e)
  {
    if RestoreBalances(c, w, e) {
      NextConserves(c, w, e);
    } else {
      SwapStepConservesIff(c, w, e);
    }
  }

  /** Main result on the restore gap: a run conserves at every step exactly when its restores
      balance, so an unbalanced restore that applies is the only thing that can break it. */
  lemma {:induction false} RunConservesIff(c: Codec, w: World, events: seq<Event>)
    requires c.Valid() && Inv(c, w)
    ensures StepsConserve(c, w, events) <==> RestoresBalanced(c, w, events)
    decreases |events|
  {
    if events != [] {
      NextConservesIff(c, w, events[0]);
      NextKeepsInv(c, w, events[0]);
      RunConservesIff(c, Next(c, w, events[0]), events[1..]);
    }
  }

  // ---------------------------------------------------------------- runs of moves only

  predicate NoRestore(events: seq<Event>) {
    forall k :: 0 <= k < |events| ==> !(events[k].Begin? && events[k].job.RestoreJob?)
  }

  predicate NothingToRestore(w: World) {
    && (forall id :: id in w.ops ==> w.ops[id].job.MoveJob?)
    && (forall k :: 0 <= k < |w.orphans| ==> !w.orphans[k].swap.back)
  }

  lemma AnswerKeepsJob(c: Codec, stores: Stores, op: Op, texts: (string, string), at: string)
    ensures OnAnswer(c, stores, op, texts, at).job == op.job
  {
  }

  /** A step never changes the job of an operation, and starts only the one it names. */
  lemma JobsStay(c: Codec, w: World, e: Event)
    ensures var w' := Next(c, w, e);
      && (forall id :: id in w.ops ==> id in w'.ops && w'.ops[id].job == w.ops[id].job)
      && (forall id :: id in w'.ops && id !in w.ops ==> e.Begin? && e.id == id && w'.ops[id].job == e.job)
  {
    if e.Answer? && e.id in w.ops {
      AnswerKeepsJob(c, w.stores, w.ops[e.id], e.texts, e.at);
    }
  }

  /** What a move has on its way is no restore's swap. */
  lemma MovesSendForth(op: Op)
    requires op.job.MoveJob? && Pending(op).Some?
    ensures !Pending(op).value.back
  {
  }

  lemma OrphansStayForth(c: Codec, w: World, e: Event)
    requires NothingToRestore(w)
    ensures var w' := Next(c, w, e);
      forall k :: 0 <= k < |w'.orphans| ==> !w'.orphans[k].swap.back
  {
    if e.GiveUp? && e.id in w.ops && Pending(w.ops[e.id]).Some? {
      MovesSendForth(w.ops[e.id]);
    }
  }

  lemma StillNothingToRestore(c: Codec, w: World, e: Event)
    requires NothingToRestore(w) && !(e.Begin? && e.job.RestoreJob?)
    ensures NothingToRestore(Next(c, w, e)) && RestoreBalances(c, w, e)
  {
    JobsStay(c, w, e);
    OrphansStayForth(c, w, e);
    var s := SwapOf(w, e);
    assert s.Some? ==> !s.value.back;
  }

  lemma {:induction false} MovesNeedNoCondition(c: Codec, w: World, events: seq<Event>)
    requires NothingToRestore(w) && NoRestore(events)
    ensures RestoresBalanced(c, w, events)
    decreases |events|
  {
    if events != [] {
      StillNothingToRestore(c, w, events[0]);
      MovesNeedNoCondition(c, Next(c, w, events[0]), events[1..]);
    }
  }

  /** Without restores nothing can break conservation: no reordering, lost reply or retry. */
  lemma MovesConserve(c: Codec, stores: Stores, events: seq<Event>)
    requires c.Valid() && NoRestore(events)
    ensures Conserved(c, Start(stores), After(c, Start(stores), events))
  {
    MovesNeedNoCondition(c, Start(stores), events);
    RunConserves(c, Start(stores), events);
  }

  // ---------------------------------------------------------------- a key stays in one store

  /** x is in owner's store once, and in no other store. */
  ghost predicate OnlyIn(c: Codec, stores: Stores, owner: string, x: Value) {
    HeldBy(c, stores, owner)[x] == 1 && forall o :: o != owner ==> HeldBy(c, stores, o)[x] == 0
  }

  lemma OneMeansOnlyIn(c: Codec, stores: Stores, x: Value) returns (owner: string)
    requires Total(c, stores, x) == 1
    ensures OnlyIn(c, stores, owner, x)
  {
    owner := SumPositive(Counts(c, stores, x));
    TotalSplit(c, stores, owner, x);
    forall o | o != owner ensures HeldBy(c, stores, o)[x] == 0 {
      TotalSplit(c, stores - {owner}, o, x);
    }
  }

  lemma OnlyInMeansOne(c: Codec, stores: Stores, owner: string, x: Value)
    requires OnlyIn(c, stores, owner, x)
    ensures Total(c, stores, x) == 1
  {
    TotalSplit(c, stores, owner, x);
    var rest := Counts(c, stores - {owner}, x);
    forall o | o in rest ensures rest[o] == 0 {
      assert rest[o] == HeldBy(c, stores, o)[x];
    }
    SumZero(rest);
  }

  /** A key that starts in exactly one store, and that nobody creates or revokes, is in
      exactly one store after every such run, with its core unchanged. */
  lemma KeyStaysInOneStore(c: Codec, stores: Stores, events: seq<Event>, x: Value, owner: string)
    returns (owner': string)
    requires c.Valid() && RestoresBalanced(c, Start(stores), events)
    requires OnlyIn(c, stores, owner, x)
    requires After(c, Start(stores), events).created[x] == 0 && After(c, Start(stores), events).revoked[x] == 0
    ensures OnlyIn(c, After(c, Start(stores), events).stores, owner', x)
  {
    var w, w' := Start(stores), After(c, Start(stores), events);
    RunConserves(c, w, events);
    OnlyInMeansOne(c, stores, owner, x);
    assert ConservedAt(c, w, w', x);
    owner' := OneMeansOnlyIn(c, w'.stores, x);
  }

  // ---------------------------------------------------------------- when a restore balances

  lemma BalanceIsSymmetric(c: Codec, m: Move)
    ensures Balanced(c, Back(m)) <==> Balanced(c, Forth(m))
  {
    assert forall x :: Taken(c, Back(m), x) == Given(c, Forth(m), x) && Given(c, Back(m), x) == Taken(c, Forth(m), x);
  }

  /** A record answered by the swap itself restores exactly what the move took. */
  lemma RepliedRecordBalances(c: Codec, stores: Stores, op: Op, texts: (string, string), at: string)
    requires OpInv(c, op) && op.pc.Replied?
    requires OnAnswer(c, stores, op, texts, at).pc.Moved?
    ensures Balanced(c, Back(OnAnswer(c, stores, op, texts, at).pc.move))
  {
    BalanceIsSymmetric(c, op.pc.plan);
  }

  lemma RereadBalancesIff(c: Codec, plan: Move, now: (string, string))
    requires Balanced(c, Forth(plan))
    ensures Balanced(c, Back(plan.(after := now)))
       <==> forall x :: Given(c, Forth(plan.(after := now)), x) == Given(c, Forth(plan), x)
  {
    var record := plan.(after := now);
    BalanceIsSymmetric(c, record);
    assert forall x :: Taken(c, Forth(plan), x) == Given(c, Forth(plan), x) == Taken(c, Forth(record), x);
  }

  /** A record confirmed by re-reading carries the re-read texts, so restoring it conserves
      exactly when the two stores then still held what the swap had written. */
  lemma ReadRecordBalancesIff(c: Codec, stores: Stores, op: Op, texts: (string, string), at: string)
    requires OpInv(c, op) && op.pc.CheckTarget?
    requires OnAnswer(c, stores, op, texts, at).pc.Moved?
    ensures var record := OnAnswer(c, stores, op, texts, at).pc.move;
      && record.after == (Wire(op.pc.rawSource), Wire(Raw(stores, op.job.Target())))
      && (Balanced(c, Back(record)) <==> forall x :: Given(c, Forth(record), x) == Given(c, Forth(op.pc.plan), x))
  {
    RereadBalancesIff(c, op.pc.plan, (Wire(op.pc.rawSource), Wire(Raw(stores, op.job.Target()))));
  }
}
