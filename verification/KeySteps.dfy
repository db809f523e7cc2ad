/** Single steps of the transfer machine, for building a given run step by step. */
module KeySteps {
  import opened Wrappers
  import opened KeyTransfers

  lemma BeginStep(c: Codec, w: World, id: nat, job: Job)
    requires id !in w.ops && (job.RestoreJob? ==> Answered(w, job.record))
    ensures Next(c, w, Begin(id, job)) == w.(ops := w.ops[id := BeginOp(job)])
  {
  }

  lemma AnswerStep(c: Codec, w: World, id: nat, texts: (string, string), at: string, op: Op)
    requires id in w.ops && OnAnswer(c, w.stores, w.ops[id], texts, at) == op
    ensures Next(c, w, Answer(id, texts, at)) == w.(ops := w.ops[id := op])
  {
  }

  lemma FailStep(c: Codec, w: World, id: nat, op: Op)
    requires id in w.ops && OnFail(w.ops[id]) == op
    ensures Next(c, w, Fail(id)) == w.(ops := w.ops[id := op])
  {
  }

  lemma GiveUpStep(c: Codec, w: World, id: nat, s: Swap, op: Op)
    requires id in w.ops && Pending(w.ops[id]) == Some(s) && OnFail(w.ops[id]) == op
    ensures Next(c, w, GiveUp(id)) == w.(ops := w.ops[id := op], orphans := w.orphans + [Orphan(id, s)])
  {
  }

  lemma RunStep(c: Codec, w: World, id: nat, s: Swap, stores: Stores, op: Op)
    requires id in w.ops && Pending(w.ops[id]) == Some(s)
    requires Swapped(w.stores, s) == stores && OnRun(w.stores, w.ops[id]) == op
    ensures Next(c, w, Run(id)) == w.(ops := w.ops[id := op], stores := stores)
  {
  }

  lemma After1(c: Codec, w: World, a: Event)
    ensures After(c, w, [a]) == Next(c, w, a)
  {
    assert [a][1..] == [];
    assert After(c, Next(c, w, a), []) == Next(c, w, a);
  }

  lemma After2(c: Codec, w: World, a: Event, b: Event)
    ensures After(c, w, [a, b]) == Next(c, Next(c, w, a), b)
  {
    assert [a, b][1..] == [b];
    After1(c, Next(c, w, a), b);
  }

  lemma AfterCons(c: Codec, w: World, e: Event, events: seq<Event>)
    ensures After(c, w, [e] + events) == After(c, Next(c, w, e), events)
  {
    assert ([e] + events)[1..] == events;
  }

  lemma {:induction false} AfterConcat(c: Codec, w: World, a: seq<Event>, b: seq<Event>)
    ensures After(c, w, a + b) == After(c, After(c, w, a), b)
    decreases |a|
  {
    if a == [] {
      assert a + b == b;
    } else {
      assert (a + b)[1..] == a[1..] + b;
      AfterConcat(c, Next(c, w, a[0]), a[1..], b);
    }
  }
}
