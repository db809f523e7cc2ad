/**
 * A run in which conservation fails. Owner A holds key k1, owner C holds key k2, B holds nothing.
 *
 *   1  a move takes k1 from A to B; its swap applies, but the reply is lost
 *   2  before that move re-reads the stores, another move takes k2 from C to B
 *   3  the first move re-reads, finds k1 at B, and answers success with a record that carries
 *      the re-read texts: B's text holds both keys
 *   4  the record is restored: its swap finds the texts it expects, puts k1 back at A, and writes
 *      B's text from before the first move, which is none
 *
 * Then k2 is in no store.
 */
module KeyRestoreGap {
  import opened Wrappers
  import opened KeyEntries
  import opened KeyTransfers
  import opened KeySteps
  import opened KeyExamples
  import opened KeyConservation

  function Entry(key: string, alias: string): Value { NewEntry(Hash, key, alias) }

  const FIRST := Entry("k1", "one")
  const SECOND := Entry("k2", "two")

  function FirstMoved(): Value { MovedEntry(FIRST, "A", "B", "u1", "t", false, []) }

  function SecondMoved(): Value { MovedEntry(SECOND, "C", "B", "u2", "t", false, [FirstMoved()]) }

  function Parse(text: string): Option<seq<Value>> {
    if text == "a0" then Some([FIRST])
    else if text == "c0" then Some([SECOND])
    else if text == "none" then Some([])
    else if text == "b1" then Some([FirstMoved()])
    else if text == "b2" then Some([FirstMoved(), SecondMoved()])
    else None
  }

  const CODEC := Codec(Parse, Hash)
  const STORES: Stores := map["A" := "a0", "C" := "c0"]
  const FIRST_JOB := MoveJob("A", "B", Hash("k1"), "u1")
  const SECOND_JOB := MoveJob("C", "B", Hash("k2"), "u2")
  const FIRST_PLAN := Move("A", "B", ("a0", ""), ("none", "b1"), Hash("k1"), "u1", "t")
  const RECORD := FIRST_PLAN.(after := ("none", "b2"))
  const SECOND_PLAN := Move("C", "B", ("c0", "b1"), ("none", "b2"), Hash("k2"), "u2", "t")

  function Get(id: nat): Event { Answer(id, ("", ""), "t") }

  lemma OneEntryFound(e: Value, key: string, alias: string)
    requires key != "" && e == Entry(key, alias)
    ensures FindDeviceKey(Hash, [e], Hash(key)) == Found(0, e)
    ensures Text(e, "hash") == Hash(key) && Text(e, "key") == key && Text(e, "alias") == alias
    ensures RemoveAt([e], 0) == []
  {
    assert Candidates(Hash, e) == [Hash(key), Hash(Hash(key))];
    assert Hit(Hash, e, Hash(key));
    FoundIffOnlyHit(Hash, [e], Hash(key), 0);
  }

  lemma HashesDiffer()
    ensures "k1" != "k2" && Hash("k1") != Hash("k2")
  {
    assert "k1"[1] == '1' && "k2"[1] == '2';
    assert Hash("k1")[2] == '1' && Hash("k2")[2] == '2';
  }

  lemma FirstPlanned(op: Op)
    requires op.job == FIRST_JOB
    ensures Plan(CODEC, op, 1, Some("a0"), None, ("none", "b1"), "t")
      == Op(FIRST_JOB, Sent(1, FIRST, FIRST_PLAN), op.sent + 1)
  {
    OneEntryFound(FIRST, "k1", "one");
    NotMqtt(FIRST);
    assert [] + [FirstMoved()] == [FirstMoved()];
    MovePlanned(CODEC, op, Some("a0"), None, ("none", "b1"), [FIRST], [], FIRST);
  }

  lemma FirstIsNotSecond()
    ensures !HoldsSameKey([FirstMoved()], SECOND)
  {
    OneEntryFound(SECOND, "k2", "two");
    OneEntryFound(FIRST, "k1", "one");
    MovedKeepsCore(FIRST, "A", "B", "u1", "t", false, []);
    assert Text(FirstMoved(), "key") == "k1" && Text(FirstMoved(), "hash") == Hash("k1");
    HashesDiffer();
    assert !SameKey(FirstMoved(), SECOND);
  }

  lemma TextsRead()
    ensures Parse("c0") == Some([SECOND]) && Parse("b1") == Some([FirstMoved()]) && Parse("none") == Some([])
    ensures Parse("b2") == Some([FirstMoved()] + [SecondMoved()])
  {
    assert [FirstMoved()] + [SecondMoved()] == [FirstMoved(), SecondMoved()];
  }

  lemma SecondPlanned(op: Op)
    requires op.job == SECOND_JOB
    ensures Plan(CODEC, op, 1, Some("c0"), Some("b1"), ("none", "b2"), "t")
      == Op(SECOND_JOB, Sent(1, SECOND, SECOND_PLAN), op.sent + 1)
  {
    OneEntryFound(SECOND, "k2", "two");
    NotMqtt(SECOND);
    FirstIsNotSecond();
    TextsRead();
    MovePlanned(CODEC, op, Some("c0"), Some("b1"), ("none", "b2"), [SECOND], [FirstMoved()], SECOND);
  }

  lemma CountOfTwo(a: Value, b: Value, e: Value)
    ensures CountSameKey([a, b], e) == (if SameKey(a, e) then 1 else 0) + (if SameKey(b, e) then 1 else 0)
  {
    assert [a, b][..1] == [a] && [a][..0] == [];
    assert CountSameKey([a], e) == CountSameKey([], e) + if SameKey(a, e) then 1 else 0;
  }

  lemma MovedTexts()
    ensures SameKey(FirstMoved(), FIRST) && !SameKey(SecondMoved(), FIRST)
  {
    MovedKeepsCore(FIRST, "A", "B", "u1", "t", false, []);
    MovedKeepsCore(SECOND, "C", "B", "u2", "t", false, [FirstMoved()]);
    assert Text(FirstMoved(), "key") == Text(FIRST, "key") == "k1";
    assert Text(SecondMoved(), "key") == Text(SECOND, "key") == "k2";
    assert Text(SecondMoved(), "hash") == Text(SECOND, "hash") == Hash("k2");
    HashesDiffer();
  }

  lemma FirstDecided(op: Op)
    requires op.job == FIRST_JOB
    ensures Decide(CODEC, op, FIRST, FIRST_PLAN, Some("none"), Some("b2")) == Success(op, RECORD)
  {
    MovedTexts();
    CountOfTwo(FirstMoved(), SecondMoved(), FIRST);
    assert CODEC.Entries(Some("b2")) == Some([FirstMoved(), SecondMoved()]);
    assert CODEC.Entries(Some("none")) == Some([]);
  }

  lemma PlanStep(c: Codec, w: World, id: nat, raw: Option<string>, texts: (string, string), op: Op)
    requires id in w.ops && w.ops[id].pc == ReadTarget(1, raw)
    requires Plan(c, w.ops[id], 1, raw, Raw(w.stores, w.ops[id].job.Target()), texts, "t") == op
    ensures Next(c, w, Answer(id, texts, "t")) == w.(ops := w.ops[id := op])
  {
    AnswerStep(c, w, id, texts, "t", op);
  }

  lemma DecideStep(c: Codec, w: World, id: nat, e: Value, plan: Move, raw: Option<string>, op: Op)
    requires id in w.ops && w.ops[id].pc == CheckTarget(e, plan, raw)
    requires Decide(c, w.ops[id], e, plan, raw, Raw(w.stores, w.ops[id].job.Target())) == op
    ensures Next(c, w, Get(id)) == w.(ops := w.ops[id := op])
  {
    AnswerStep(c, w, id, ("", ""), "t", op);
  }

  // The states of the run.

  function Ops(pc: Pc, sent: nat): map<nat, Op> { map[1 := Op(FIRST_JOB, pc, sent)] }

  function Both(pc: Pc, second: Pc, sent: nat): map<nat, Op> {
    map[1 := Op(FIRST_JOB, pc, 1), 2 := Op(SECOND_JOB, second, sent)]
  }

  function At(stores: Stores, ops: map<nat, Op>): World { World(stores, ops, [], multiset{}, multiset{}) }

  lemma OpsMove(pc: Pc, next: Pc, sent: nat, sent': nat)
    ensures Ops(pc, sent)[1 := Op(FIRST_JOB, next, sent')] == Ops(next, sent')
  {
  }

  lemma BothMove(pc: Pc, second: Pc, sent: nat, next: Pc, sent': nat)
    ensures Both(pc, second, sent)[1 := Op(FIRST_JOB, next, 1)] == Both(next, second, sent)
    ensures Both(pc, second, sent)[2 := Op(SECOND_JOB, next, sent')] == Both(pc, next, sent')
  {
  }

  const ONE_MOVED: Stores := map["A" := "none", "B" := "b1", "C" := "c0"]
  const BOTH_MOVED: Stores := map["A" := "none", "B" := "b2", "C" := "none"]
  const RESTORED: Stores := map["A" := "a0", "C" := "none"]

  const W2 := At(STORES, Ops(ReadTarget(1, Some("a0")), 0))
  const W3 := At(STORES, Ops(Sent(1, FIRST, FIRST_PLAN), 1))
  const W5 := At(ONE_MOVED, Ops(CheckSource(FIRST, FIRST_PLAN), 1))
  const W7 := At(ONE_MOVED, Both(CheckSource(FIRST, FIRST_PLAN), ReadTarget(1, Some("c0")), 0))
  const W8 := At(ONE_MOVED, Both(CheckSource(FIRST, FIRST_PLAN), Sent(1, SECOND, SECOND_PLAN), 1))
  const W10 := At(BOTH_MOVED, Both(CheckSource(FIRST, FIRST_PLAN), Moved(SECOND_PLAN), 1))
  const W11 := At(BOTH_MOVED, Both(CheckTarget(FIRST, FIRST_PLAN, Some("none")), Moved(SECOND_PLAN), 1))
  const W12 := At(BOTH_MOVED, Both(Moved(RECORD), Moved(SECOND_PLAN), 1))

  const E1 := [Begin(1, FIRST_JOB), Get(1)]
  const E2 := [Answer(1, ("none", "b1"), "t")]
  const E3 := [Run(1), Fail(1)]
  const E4 := [Begin(2, SECOND_JOB), Get(2)]
  const E5 := [Answer(2, ("none", "b2"), "t")]
  const E6 := [Run(2), Get(2)]
  const E7 := [Begin(3, RestoreJob(RECORD)), Run(3)]

  predicate NoRevoke(events: seq<Event>) {
    forall k :: 0 <= k < |events| ==> !events[k].Revoke?
  }

  lemma FirstReads(w: World)
    requires w == At(STORES, Ops(ReadSource(1), 0))
    ensures Next(CODEC, w, Get(1)) == W2
  {
    AnswerStep(CODEC, w, 1, ("", ""), "t", Op(FIRST_JOB, ReadTarget(1, Some("a0")), 0));
    OpsMove(ReadSource(1), ReadTarget(1, Some("a0")), 0, 0);
  }

  /** The first move starts and reads its source. */
  lemma Run1() returns (e: seq<Event>)
    ensures After(CODEC, Start(STORES), e) == W2 && NoRevoke(e)
  {
    e := E1;
    var w := Next(CODEC, Start(STORES), Begin(1, FIRST_JOB));
    assert w == At(STORES, Ops(ReadSource(1), 0));
    FirstReads(w);
    After2(CODEC, Start(STORES), Begin(1, FIRST_JOB), Get(1));
  }

  lemma Step2()
    ensures Next(CODEC, W2, Answer(1, ("none", "b1"), "t")) == W3
  {
    assert Raw(STORES, "B") == None && W2.ops[1] == Op(FIRST_JOB, ReadTarget(1, Some("a0")), 0);
    FirstPlanned(W2.ops[1]);
    PlanStep(CODEC, W2, 1, Some("a0"), ("none", "b1"), W3.ops[1]);
    OpsMove(ReadTarget(1, Some("a0")), Sent(1, FIRST, FIRST_PLAN), 0, 1);
  }

  /** It reads its target and sends the swap. */
  lemma Run2() returns (e: seq<Event>)
    ensures After(CODEC, W2, e) == W3 && NoRevoke(e)
  {
    e := E2;
    Step2();
    After1(CODEC, W2, E2[0]);
  }

  lemma FirstSwaps()
    ensures Matches(STORES, Forth(FIRST_PLAN)) && Swapped(STORES, Forth(FIRST_PLAN)) == ONE_MOVED
  {
  }

  lemma SecondSwaps()
    ensures Matches(ONE_MOVED, Forth(SECOND_PLAN)) && Swapped(ONE_MOVED, Forth(SECOND_PLAN)) == BOTH_MOVED
  {
  }

  /** The swap applies; its reply is lost. */
  lemma Run3() returns (e: seq<Event>)
    ensures After(CODEC, W3, e) == W5 && NoRevoke(e)
  {
    e := E3;
    var replied := Op(FIRST_JOB, Replied(1, FIRST, FIRST_PLAN, true), 1);
    FirstSwaps();
    RunStep(CODEC, W3, 1, Forth(FIRST_PLAN), ONE_MOVED, replied);
    var w := W3.(ops := W3.ops[1 := replied], stores := ONE_MOVED);
    FailStep(CODEC, w, 1, Op(FIRST_JOB, CheckSource(FIRST, FIRST_PLAN), 1));
    assert w.ops[1 := W5.ops[1]] == W5.ops;
    After2(CODEC, W3, Run(1), Fail(1));
  }

  /** Meanwhile a second move to the same target runs to its end. */
  lemma Run4() returns (e: seq<Event>)
    ensures After(CODEC, W5, e) == W7 && NoRevoke(e)
  {
    e := E4;
    var w := Next(CODEC, W5, Begin(2, SECOND_JOB));
    assert w.ops == Both(CheckSource(FIRST, FIRST_PLAN), ReadSource(1), 0);
    assert Next(CODEC, w, Get(2)).ops == W7.ops;
    After2(CODEC, W5, Begin(2, SECOND_JOB), Get(2));
  }

  lemma Planned5()
    ensures W7.ops[2].pc == ReadTarget(1, Some("c0"))
    ensures Plan(CODEC, W7.ops[2], 1, Some("c0"), Raw(W7.stores, W7.ops[2].job.Target()), ("none", "b2"), "t")
      == W8.ops[2]
  {
    assert Raw(ONE_MOVED, "B") == Some("b1") && W7.ops[2] == Op(SECOND_JOB, ReadTarget(1, Some("c0")), 0);
    SecondPlanned(W7.ops[2]);
  }

  lemma Step5()
    ensures Next(CODEC, W7, Answer(2, ("none", "b2"), "t")) == W8
  {
    Planned5();
    PlanStep(CODEC, W7, 2, Some("c0"), ("none", "b2"), W8.ops[2]);
    BothMove(CheckSource(FIRST, FIRST_PLAN), ReadTarget(1, Some("c0")), 0, Sent(1, SECOND, SECOND_PLAN), 1);
  }

  lemma Run5() returns (e: seq<Event>)
    ensures After(CODEC, W7, e) == W8 && NoRevoke(e)
  {
    e := E5;
    Step5();
    After1(CODEC, W7, E5[0]);
  }

  lemma Run6() returns (e: seq<Event>)
    ensures After(CODEC, W8, e) == W10 && NoRevoke(e)
  {
    e := E6;
    var replied := Op(SECOND_JOB, Replied(1, SECOND, SECOND_PLAN, true), 1);
    SecondSwaps();
    RunStep(CODEC, W8, 2, Forth(SECOND_PLAN), BOTH_MOVED, replied);
    var w := W8.(ops := W8.ops[2 := replied], stores := BOTH_MOVED);
    AnswerStep(CODEC, w, 2, ("", ""), "t", W10.ops[2]);
    assert w.ops[2 := W10.ops[2]] == W10.ops;
    After2(CODEC, W8, Run(2), Get(2));
  }

  lemma Step7()
    ensures Next(CODEC, W10, Get(1)) == W11
  {
    assert Raw(BOTH_MOVED, "A") == Some("none") && W10.ops[1] == Op(FIRST_JOB, CheckSource(FIRST, FIRST_PLAN), 1);
    AnswerStep(CODEC, W10, 1, ("", ""), "t", W11.ops[1]);
    BothMove(CheckSource(FIRST, FIRST_PLAN), Moved(SECOND_PLAN), 1, CheckTarget(FIRST, FIRST_PLAN, Some("none")), 1);
  }

  /** The first move re-reads its source, then its target, and confirms itself. */
  lemma Run7() returns (e: seq<Event>)
    ensures After(CODEC, W10, e) == W11 && NoRevoke(e)
  {
    e := [Get(1)];
    Step7();
    After1(CODEC, W10, Get(1));
  }

  lemma Decided8()
    ensures W11.ops[1].pc == CheckTarget(FIRST, FIRST_PLAN, Some("none"))
    ensures Decide(CODEC, W11.ops[1], FIRST, FIRST_PLAN, Some("none"), Raw(W11.stores, W11.ops[1].job.Target()))
      == W12.ops[1]
  {
    assert Raw(BOTH_MOVED, "B") == Some("b2") &&
      W11.ops[1] == Op(FIRST_JOB, CheckTarget(FIRST, FIRST_PLAN, Some("none")), 1);
    FirstDecided(W11.ops[1]);
  }

  lemma Step8()
    ensures Next(CODEC, W11, Get(1)) == W12
  {
    Decided8();
    DecideStep(CODEC, W11, 1, FIRST, FIRST_PLAN, Some("none"), W12.ops[1]);
    BothMove(CheckTarget(FIRST, FIRST_PLAN, Some("none")), Moved(SECOND_PLAN), 1, Moved(RECORD), 1);
  }

  lemma Run8() returns (e: seq<Event>)
    ensures After(CODEC, W11, e) == W12 && NoRevoke(e)
  {
    e := [Get(1)];
    Step8();
    After1(CODEC, W11, Get(1));
  }

  lemma RecordSwapsBack()
    ensures Matches(BOTH_MOVED, Back(RECORD)) && Swapped(BOTH_MOVED, Back(RECORD)) == RESTORED
  {
  }

  /** Its record is restored. */
  lemma Run9() returns (e: seq<Event>)
    ensures After(CODEC, W12, e).stores == RESTORED && NoRevoke(e)
  {
    e := E7;
    var back := Op(RestoreJob(RECORD), BackSent, 1);
    assert W12.ops[1].pc == Moved(RECORD);
    BeginStep(CODEC, W12, 3, RestoreJob(RECORD));
    var w := W12.(ops := W12.ops[3 := back]);
    RecordSwapsBack();
    RunStep(CODEC, w, 3, Back(RECORD), RESTORED, OnRun(BOTH_MOVED, back));
    After2(CODEC, W12, Begin(3, RestoreJob(RECORD)), Run(3));
  }

  lemma Extend(c: Codec, w: World, a: seq<Event>, b: seq<Event>) returns (e: seq<Event>)
    requires NoRevoke(a) && NoRevoke(b)
    ensures After(c, w, e) == After(c, After(c, w, a), b) && NoRevoke(e)
  {
    e := a + b;
    AfterConcat(c, w, a, b);
  }

  lemma WholeRun() returns (events: seq<Event>)
    ensures After(CODEC, Start(STORES), events).stores == RESTORED && NoRevoke(events)
  {
    var w := Start(STORES);
    events := Run1();
    var e := Run2();
    events := Extend(CODEC, w, events, e);
    e := Run3();
    events := Extend(CODEC, w, events, e);
    e := Run4();
    events := Extend(CODEC, w, events, e);
    e := Run5();
    events := Extend(CODEC, w, events, e);
    e := Run6();
    events := Extend(CODEC, w, events, e);
    e := Run7();
    events := Extend(CODEC, w, events, e);
    e := Run8();
    events := Extend(CODEC, w, events, e);
    e := Run9();
    events := Extend(CODEC, w, events, e);
  }

  lemma HeldHere()
    ensures Held(CODEC, "c0") == multiset{Core(SECOND)} && Held(CODEC, "a0") == multiset{Core(FIRST)}
    ensures Held(CODEC, "none") == multiset{} && Core(FIRST) != Core(SECOND)
  {
    assert CODEC.parse("c0") == Some([SECOND]) && CODEC.parse("a0") == Some([FIRST]) && CODEC.parse("none") == Some([]);
    assert CoreSeq([SECOND]) == [Core(SECOND)] && CoreSeq([FIRST]) == [Core(FIRST)];
    assert CoreSeq([]) == [];
    HashesDiffer();
    assert Text(Core(FIRST), "key") == "k1" && Text(Core(SECOND), "key") == "k2";
  }

  lemma SecondAtStart()
    ensures OnlyIn(CODEC, STORES, "C", Core(SECOND))
  {
    HeldHere();
    forall o | o != "C" ensures HeldBy(CODEC, STORES, o)[Core(SECOND)] == 0 {
      assert o in STORES ==> STORES[o] == "a0";
    }
  }

  lemma SecondAtEnd()
    ensures forall o :: HeldBy(CODEC, RESTORED, o)[Core(SECOND)] == 0
  {
    HeldHere();
    forall o ensures HeldBy(CODEC, RESTORED, o)[Core(SECOND)] == 0 {
      assert o in RESTORED ==> RESTORED[o] == "a0" || RESTORED[o] == "none";
    }
  }

  /** The second key starts in exactly one store, nobody revokes it, and it ends in none. */
  lemma RestoreCanLoseAKey() returns (events: seq<Event>, x: Value)
    ensures CODEC.Valid() && OnlyIn(CODEC, STORES, "C", x)
    ensures NoRevoke(events)
    ensures forall o :: HeldBy(CODEC, After(CODEC, Start(STORES), events).stores, o)[x] == 0
  {
    x := Core(SECOND);
    events := WholeRun();
    SecondAtStart();
    SecondAtEnd();
  }
}
