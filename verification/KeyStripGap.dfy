/**
 * When a restore answers "moved_back" and has taken another key: exactly when lastkey also names
 * an entry of the target's own.
 */
module KeyStripGap {
  import opened Wrappers
  import opened KeyEntries
  import opened KeyTransfers
  import opened KeySteps
  import opened KeyExamples
  import opened KeyTruth
  import opened KeyRestores

  // ---------------------------------------------------------------- a move without mishap

  /** The operation reads, and the plan it makes on b is this one. */
  ghost predicate Plans(c: Codec, w: World, id: nat, b: Raws, plan: Move, texts: (string, string), at: string) {
    && c.Valid() && id in w.ops && w.ops[id].pc.ReadSource?
    && w.ops[id].job.Source() != w.ops[id].job.Target() && At(w.stores, w.ops[id].job) == b
    && var op := Settle(w.ops[id], ReadTarget(w.ops[id].pc.attempt, b.0));
       var op' := Plan(c, op, w.ops[id].pc.attempt, b.0, b.1, texts, at);
       op'.pc.Sent? && op'.pc.plan == plan
  }

  /** The two reads and the plan. */
  lemma PlainReads(c: Codec, w: World, id: nat, b: Raws, plan: Move, texts: (string, string), at: string)
    returns (w1: World, w2: World)
    requires Plans(c, w, id, b, plan, texts, at)
    ensures w1 == Next(c, w, Answer(id, ("", ""), at)) && w2 == Next(c, w1, Answer(id, texts, at))
    ensures w1.stores == w.stores && w2.stores == w.stores && w2.orphans == w.orphans && w2.ops.Keys == w.ops.Keys
    ensures w2.ops[id].job == w.ops[id].job && w2.ops[id].pc.Sent? && w2.ops[id].pc.plan == plan
    ensures Planned(c, w.ops[id].job, b, plan)
  {
    var op1 := Settle(w.ops[id], ReadTarget(w.ops[id].pc.attempt, b.0));
    AnswerStep(c, w, id, ("", ""), at, op1);
    w1 := w.(ops := w.ops[id := op1]);
    PlanIsPlanned(c, op1, op1.pc.attempt, b, texts, at);
    var op2 := Plan(c, op1, op1.pc.attempt, b.0, b.1, texts, at);
    AnswerStep(c, w1, id, texts, at, op2);
    w2 := w1.(ops := w1.ops[id := op2]);
  }

  /** The swap, which applies, and its reply. */
  lemma PlainSwap(c: Codec, w: World, id: nat, job: Job, b: Raws, plan: Move, at: string) returns (w1: World, w2: World)
    requires c.Valid() && id in w.ops && w.ops[id].job == job && w.ops[id].pc.Sent? && w.ops[id].pc.plan == plan
    requires job.Source() != job.Target() && Planned(c, job, b, plan) && At(w.stores, job) == b
    ensures w1 == Next(c, w, Run(id)) && w2 == Next(c, w1, Answer(id, ("", ""), at))
    ensures At(w1.stores, job) == Written(plan) && w2.stores == w1.stores && w2.orphans == w.orphans &&
      w2.ops.Keys == w.ops.Keys
    ensures w2.ops[id].job == job && w2.ops[id].pc == if job.Strip() then MovedBack else Moved(plan)
  {
    SwapOnBase(c, w.stores, job, b, plan);
    RunStep(c, w, id, Forth(plan), Swapped(w.stores, Forth(plan)), OnRun(w.stores, w.ops[id]));
    w1 := w.(ops := w.ops[id := OnRun(w.stores, w.ops[id])], stores := Swapped(w.stores, Forth(plan)));
    AnswerStep(c, w1, id, ("", ""), at, Success(w1.ops[id], plan));
    w2 := w1.(ops := w1.ops[id := Success(w1.ops[id], plan)]);
  }

  /** From its first read on, a move that nothing disturbs succeeds. */
  lemma PlainRun(c: Codec, w: World, id: nat, job: Job, b: Raws, plan: Move, texts: (string, string), at: string)
    returns (events: seq<Event>)
    requires Plans(c, w, id, b, plan, texts, at) && job == w.ops[id].job
    ensures Quiet(c, w, events, id, job) && Planned(c, job, b, plan)
    ensures var w' := After(c, w, events);
      && id in w'.ops && w'.ops[id].job == job && w'.orphans == w.orphans && w'.ops.Keys == w.ops.Keys
      && w'.ops[id].pc == (if job.Strip() then MovedBack else Moved(plan))
      && At(w'.stores, job) == Written(plan)
  {
    var w1, w2 := PlainReads(c, w, id, b, plan, texts, at);
    var w3, w4 := PlainSwap(c, w2, id, job, b, plan, at);
    events := [Answer(id, ("", ""), at), Answer(id, texts, at), Run(id), Answer(id, ("", ""), at)];
    Four(c, w, id, job, events, w1, w2, w3);
  }

  // ---------------------------------------------------------------- another key is taken

  /** The texts of the strip move that takes the key lastkey names at the target. */
  ghost predicate TakingTexts(c: Codec, job: Job, r: Raws, m: Move, texts: (string, string), at: string) {
    && NamesAnother(c, job, r)
    && var g, home, away := FindDeviceKey(c.sha, c.Entries(r.1).value, job.Lastkey()), c.Entries(r.0).value,
      c.Entries(r.1).value;
       && IsEntry(g.entry) && c.parse(texts.0) == Some(RemoveAt(away, g.index))
       && c.parse(texts.1) == Some(home + [MovedEntry(g.entry, m.target, m.source, m.udid, at, true, home)])
  }

  /** The restore's swap applies, its reply is lost, and the re-read fails: the strip move begins
      on the old stores. */
  lemma LostReply(c: Codec, w: World, id: nat, job: Job, r: Raws, m: Move) returns (w1: World, w2: World, w3: World)
    requires Restoring(c, w, id, job, r, m)
    ensures w1 == Next(c, w, Run(id)) && w2 == Next(c, w1, Fail(id)) && w3 == Next(c, w2, Fail(id))
    ensures w2.stores == w1.stores && w3.stores == w1.stores && At(w1.stores, RestoreJob(m)) == Swap2(r)
    ensures id in w3.ops && w3.ops[id].job == RestoreJob(m) && w3.ops[id].pc == ReadSource(1)
  {
    assert Swap2(At(w.stores, RestoreJob(m))) == At(w.stores, job);
    BasesReadable(c, job, r, m);
    BackOnMoved(c, w.stores, job, r, m);
    var stores, op := Swapped(w.stores, Back(m)), w.ops[id];
    RunStep(c, w, id, Back(m), stores, OnRun(w.stores, op));
    w1 := w.(ops := w.ops[id := op.(pc := BackReplied(true))], stores := stores);
    FailStep(c, w1, id, op.(pc := BackReadSource));
    w2 := w1.(ops := w1.ops[id := op.(pc := BackReadSource)]);
    FailStep(c, w2, id, op.(pc := ReadSource(1)));
    w3 := w2.(ops := w2.ops[id := op.(pc := ReadSource(1))]);
  }

  /** The run with the lost reply, and what follows it. */
  lemma LostReplyThen(c: Codec, w: World, w1: World, w2: World, w3: World, id: nat, job: Job, more: seq<Event>)
    returns (events: seq<Event>)
    requires w1 == Next(c, w, Run(id)) && w2 == Next(c, w1, Fail(id)) && w3 == Next(c, w2, Fail(id))
    requires w2.stores == w1.stores && w3.stores == w1.stores && Quiet(c, w3, more, id, job)
    ensures Quiet(c, w, events, id, job) && After(c, w, events) == After(c, w3, more)
  {
    QuietCons(c, w2, Fail(id), more, id, job);
    QuietCons(c, w1, Fail(id), [Fail(id)] + more, id, job);
    QuietCons(c, w, Run(id), [Fail(id)] + ([Fail(id)] + more), id, job);
    events := [Run(id)] + ([Fail(id)] + ([Fail(id)] + more));
  }

  lemma TakingPlans(c: Codec, w: World, id: nat, job: Job, r: Raws, m: Move, texts: (string, string), at: string)
    returns (plan: Move)
    requires Recorded(c, job, r, m) && TakingTexts(c, job, r, m, texts, at)
    requires id in w.ops && w.ops[id].job == RestoreJob(m) && w.ops[id].pc == ReadSource(1)
    requires At(w.stores, RestoreJob(m)) == Swap2(r)
    ensures Plans(c, w, id, Swap2(r), plan, texts, at)
  {
    plan := Move(m.target, m.source, (Wire(r.1), Wire(r.0)), texts, m.lastkey, m.udid, at);
  }

  /** A run in which nobody else writes, the restore answers "moved_back", and the target has lost
      another key. */
  lemma TakesAnother(c: Codec, w: World, id: nat, job: Job, r: Raws, m: Move, texts: (string, string), at: string)
    returns (events: seq<Event>)
    requires Restoring(c, w, id, job, r, m) && TakingTexts(c, job, r, m, texts, at)
    ensures Quiet(c, w, events, id, RestoreJob(m))
    ensures var w' := After(c, w, events);
      && id in w'.ops && w'.ops[id].pc == MovedBack && TookAnother(c, job, r, At(w'.stores, job))
      && !BroughtBack(c, job, r, At(w'.stores, job))
  {
    var w1, w2, w3 := LostReply(c, w, id, job, r, m);
    var plan := TakingPlans(c, w3, id, job, r, m, texts, at);
    var more := PlainRun(c, w3, id, RestoreJob(m), Swap2(r), plan, texts, at);
    events := LostReplyThen(c, w, w1, w2, w3, id, RestoreJob(m), more);
    var w' := After(c, w, events);
    assert At(w'.stores, job) == Swap2(At(w'.stores, RestoreJob(m)));
    StripTakesAnother(c, job, r, m, Subject(c, RestoreJob(m), Swap2(r)).entry, plan);
    TakingIsNotBringing(c, job, r, At(w'.stores, job));
  }

  // ---------------------------------------------------------------- the exact condition

  predicate TrueAfter(c: Codec, w: World, id: nat, job: Job, r: Raws) {
    id in w.ops && w.ops[id].pc.MovedBack? ==> BroughtBack(c, job, r, At(w.stores, job))
  }

  /** Whenever nobody else writes and the restore answers "moved_back", the move is undone. */
  ghost predicate MovedBackIsTrue(c: Codec, w: World, id: nat, job: Job, r: Raws, m: Move) {
    forall events :: Quiet(c, w, events, id, RestoreJob(m)) ==> TrueAfter(c, After(c, w, events), id, job, r)
  }

  ghost predicate Prints(c: Codec, entries: seq<Value>) { exists text :: c.parse(text) == Some(entries) }

  /** The client can write the two lists of a strip move that takes what lastkey names. */
  ghost predicate CanWrite(c: Codec, job: Job, r: Raws, m: Move) {
    NamesAnother(c, job, r) ==>
      var g, home, away :=
        FindDeviceKey(c.sha, c.Entries(r.1).value, job.Lastkey()), c.Entries(r.0).value, c.Entries(r.1).value;
      && Prints(c, RemoveAt(away, g.index))
      && IsEntry(g.entry) && Prints(c, home + [MovedEntry(g.entry, m.target, m.source, m.udid, "", true, home)])
  }

  lemma TextsExist(c: Codec, job: Job, r: Raws, m: Move) returns (texts: (string, string))
    requires NamesAnother(c, job, r) && CanWrite(c, job, r, m)
    ensures TakingTexts(c, job, r, m, texts, "")
  {
    var home, away := c.Entries(r.0).value, c.Entries(r.1).value;
    var g := FindDeviceKey(c.sha, away, job.Lastkey());
    var s :| c.parse(s) == Some(RemoveAt(away, g.index));
    var t :| c.parse(t) == Some(home + [MovedEntry(g.entry, m.target, m.source, m.udid, "", true, home)]);
    texts := (s, t);
  }

  /** Main result: "moved_back" is true in every run exactly when lastkey names no other key at the
      target, which a caller can check before the move. */
  lemma MovedBackIsTrueIff(c: Codec, w: World, id: nat, job: Job, r: Raws, m: Move)
    requires Restoring(c, w, id, job, r, m) && CanWrite(c, job, r, m)
    ensures MovedBackIsTrue(c, w, id, job, r, m) <==> !NamesAnother(c, job, r)
  {
    if NamesAnother(c, job, r) {
      var texts := TextsExist(c, job, r, m);
      var events := TakesAnother(c, w, id, job, r, m, texts, "");
    } else {
      forall events | Quiet(c, w, events, id, RestoreJob(m)) ensures TrueAfter(c, After(c, w, events), id, job, r) {
        RestoreAnswers(c, w, events, id, job, r, m);
      }
    }
  }

  // ---------------------------------------------------------------- such a target exists

  const FIRST := NewEntry(Hash, "k", "one")
  const OTHER := NewEntry(Hash, "#k", "two")

  function FirstMoved(): Value { MovedEntry(FIRST, "A", "B", "u", "t", false, [OTHER]) }

  function OtherTaken(): Value { MovedEntry(OTHER, "B", "A", "u", "t", true, [FIRST]) }

  function Parse(text: string): Option<seq<Value>> {
    if text == "a" then Some([FIRST])
    else if text == "b" then Some([OTHER])
    else if text == "n" then Some([])
    else if text == "c" then Some([OTHER, FirstMoved()])
    else if text == "d" then Some([FIRST, OtherTaken()])
    else None
  }

  const CODEC := Codec(Parse, Hash)
  const JOB := MoveJob("A", "B", Hash(Hash("k")), "u")
  const OLD: Raws := (Some("a"), Some("b"))
  const RECORD := Move("A", "B", ("a", "b"), ("n", "c"), Hash(Hash("k")), "u", "t")

  lemma NamesOf(key: string, alias: string)
    requires key != ""
    ensures var e := NewEntry(Hash, key, alias);
      Candidates(Hash, e) == [Hash(key), Hash(Hash(key))] && Text(e, "key") == key && Text(e, "hash") == Hash(key)
  {
    assert |Hash(Hash(key))| == |Hash(key)| + 1;
  }

  /** The lastkey names the first key by the hash of its hash, and the other key by its hash. */
  lemma BothNamed()
    ensures FindDeviceKey(Hash, [FIRST], Hash(Hash("k"))) == Found(0, FIRST)
    ensures FindDeviceKey(Hash, [OTHER], Hash(Hash("k"))) == Found(0, OTHER)
    ensures !SameKey(FIRST, OTHER) && !SameKey(OTHER, FIRST)
  {
    NamesOf("k", "one");
    NamesOf("#k", "two");
    assert Hash("k") == "#k" && |Hash("k")| == 2 && |Hash(Hash("k"))| == 3;
    assert Hash(Hash("k")) in Candidates(Hash, FIRST) && Hash(Hash("k")) in Candidates(Hash, OTHER);
    FoundIffOnlyHit(Hash, [FIRST], Hash(Hash("k")), 0);
    FoundIffOnlyHit(Hash, [OTHER], Hash(Hash("k")), 0);
  }

  lemma TextsParse()
    ensures Parse("a") == Some([FIRST]) && Parse("b") == Some([OTHER]) && Parse("n") == Some([])
    ensures Parse("c") == Some([OTHER] + [FirstMoved()]) && Parse("d") == Some([FIRST] + [OtherTaken()])
  {
    assert [OTHER] + [FirstMoved()] == [OTHER, FirstMoved()] && [FIRST] + [OtherTaken()] == [FIRST, OtherTaken()];
  }

  lemma OneWellFormed(c: Codec, raw: Option<string>, key: string, alias: string)
    requires c.sha == Hash && key != "" && c.Entries(raw) == Some([NewEntry(Hash, key, alias)])
    ensures AllWellFormed(c, raw)
  {
    NamesOf(key, alias);
  }

  lemma RecordIsRecorded()
    requires Planned(CODEC, JOB, OLD, RECORD)
    ensures Recorded(CODEC, JOB, OLD, RECORD)
  {
    TextsParse();
    OneWellFormed(CODEC, OLD.0, "k", "one");
    OneWellFormed(CODEC, OLD.1, "#k", "two");
  }

  lemma OtherIsNamed(c: Codec, job: Job, r: Raws, m: Move, texts: (string, string), f: Value, o: Value)
    requires c.Entries(r.0) == Some([f]) && c.Entries(r.1) == Some([o]) && IsEntry(o) && !SameKey(f, o)
    requires FindDeviceKey(c.sha, [o], job.Lastkey()) == Found(0, o)
    requires c.parse(texts.0) == Some([]) && c.parse(texts.1)
      == Some([f] + [MovedEntry(o, m.target, m.source, m.udid, "t", true, [f])])
    ensures NamesAnother(c, job, r) && TakingTexts(c, job, r, m, texts, "t")
  {
    assert RemoveAt([o], 0) == [];
  }

  /** The other key is the only one lastkey names at B, and A does not hold it. */
  lemma AnotherIsNamed()
    ensures NamesAnother(CODEC, JOB, OLD) && TakingTexts(CODEC, JOB, OLD, RECORD, ("n", "d"), "t")
  {
    BothNamed();
    TextsParse();
    OtherIsNamed(CODEC, JOB, OLD, RECORD, ("n", "d"), FIRST, OTHER);
  }

  /** The move's plan on the old stores. */
  lemma MovePlans(w: World)
    requires 1 in w.ops && w.ops[1].job == JOB && w.ops[1].pc == ReadSource(1) && At(w.stores, JOB) == OLD
    ensures Plans(CODEC, w, 1, OLD, RECORD, ("n", "c"), "t")
  {
    BothNamed();
    TextsParse();
    NotMqtt(FIRST);
    assert RemoveAt([FIRST], 0) == [];
    MovePlanned(CODEC, Settle(w.ops[1], ReadTarget(1, OLD.0)), OLD.0, OLD.1, ("n", "c"), [FIRST], [OTHER], FIRST);
  }

  /** Main result: from two stores of one key each, with nobody else writing, a move and a restore
      that answers "moved_back" leave both keys at A and none at B. */
  lemma MovedBackTakesAnother() returns (events: seq<Event>)
    ensures var w := After(CODEC, Start(map["A" := "a", "B" := "b"]), events);
      && 2 in w.ops && w.ops[2].pc == MovedBack && TookAnother(CODEC, JOB, OLD, At(w.stores, JOB))
      && !BroughtBack(CODEC, JOB, OLD, At(w.stores, JOB))
  {
    var w := Start(map["A" := "a", "B" := "b"]);
    BeginStep(CODEC, w, 1, JOB);
    var w1 := Next(CODEC, w, Begin(1, JOB));
    MovePlans(w1);
    var a := PlainRun(CODEC, w1, 1, JOB, OLD, RECORD, ("n", "c"), "t");
    var w2 := After(CODEC, w1, a);
    BeginStep(CODEC, w2, 2, RestoreJob(RECORD));
    var w3 := Next(CODEC, w2, Begin(2, RestoreJob(RECORD)));
    RecordIsRecorded();
    AnotherIsNamed();
    var b := TakesAnother(CODEC, w3, 2, JOB, OLD, RECORD, ("n", "d"), "t");
    AfterCons(CODEC, w2, Begin(2, RestoreJob(RECORD)), b);
    AfterConcat(CODEC, w1, a, [Begin(2, RestoreJob(RECORD))] + b);
    AfterCons(CODEC, w, Begin(1, JOB), a + ([Begin(2, RestoreJob(RECORD))] + b));
    events := [Begin(1, JOB)] + (a + ([Begin(2, RestoreJob(RECORD))] + b));
  }
}
