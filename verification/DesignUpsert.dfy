/**
 * The design document upsert, run by any number of booting instances at once on a store with
 * revision checks: read, compare, write with the revision read, and re-read on a conflict.
 */
module DesignUpsert {
  import opened Wrappers
  import opened JsonText
  import opened CanonicalJson

  /** The stored document: its fields, and the revision the store gave it. */
  datatype Stored = Stored(doc: Json, rev: string)

  datatype Action = Created | Updated | Unchanged | Skipped | Conflict | Failed

  datatype Answer = Answer(ok: bool, action: Action)

  /** Where an instance stands; base is the revision its write carries. */
  datatype Pc =
    | Reading
    | Writing(base: Option<string>, existed: bool)       // the write is on its way
    | Wrote(existed: bool)                               // applied, reply on its way
    | Refused                                            // 409, reply on its way
    | Rereading
    | Done(answer: Answer)

  /** A write whose sender timed out may still reach the store. */
  datatype World = World(stored: Option<Stored>, instances: map<nat, Pc>, orphans: seq<Option<string>>,
                         revs: set<string>, writes: nat)

  datatype Event =
    | Boot(id: nat)
    | GetAnswers(id: nat)
    | GetFails(id: nat)                    // an error other than 404, or a timeout
    | StoreRuns(id: nat, rev: string)      // the pending write reaches the store; rev is the revision it would get
    | StoreRunsLate(k: nat, rev: string)
    | ReplyArrives(id: nat)
    | WriteFails(id: nat)                  // the write never reaches the store, or its reply is lost
    | WriteTimesOut(id: nat)               // reported failed while it is still on its way

  /** What a GET answers: the fields with the revision among them. */
  function View(s: Stored): Json {
    Obj((if s.doc.Obj? then s.doc.fields else []) + [Field("_rev", Str(s.rev))])
  }

  /** What the store keeps of a written document: the desired fields without `_rev`. */
  function WithoutRev(fields: seq<Field>): seq<Field> {
    if fields == [] then []
    else (if fields[0].key == "_rev" then [] else [fields[0]]) + WithoutRev(fields[1..])
  }

  function Body(desired: Json): Json {
    if desired.Obj? then Obj(WithoutRev(desired.fields)) else desired
  }

  function OnGet(desired: Json, stored: Option<Stored>): Pc {
    if stored.Some? && SameDesign(View(stored.value), desired) then Done(Answer(true, Unchanged))
    else Writing(if stored.Some? then Some(stored.value.rev) else None, stored.Some?)
  }

  function OnReread(desired: Json, stored: Option<Stored>): Pc {
    if stored.Some? && SameDesign(View(stored.value), desired) then Done(Answer(true, Unchanged))
    else Done(Answer(false, Conflict))
  }

  /** The store accepts a write that carries the current revision, or none when there is no document. */
  predicate Accepts(stored: Option<Stored>, base: Option<string>) {
    base == if stored.Some? then Some(stored.value.rev) else None
  }

  function Applied(desired: Json, w: World, base: Option<string>, rev: string): World {
    if Accepts(w.stored, base)
    then w.(stored := Some(Stored(Body(desired), rev)), revs := w.revs + {rev}, writes := w.writes + 1)
    else w
  }

  function Next(desired: Json, w: World, e: Event): World {
    match e
    case Boot(id) => if id in w.instances then w else w.(instances := w.instances[id := Reading])
    case GetAnswers(id) =>
      if id !in w.instances then w
      else if w.instances[id].Reading? then w.(instances := w.instances[id := OnGet(desired, w.stored)])
      else if w.instances[id].Rereading? then w.(instances := w.instances[id := OnReread(desired, w.stored)])
      else w
    case GetFails(id) =>
      if id !in w.instances then w
      else if w.instances[id].Reading? then w.(instances := w.instances[id := Done(Answer(false, Skipped))])
      else if w.instances[id].Rereading? then w.(instances := w.instances[id := Done(Answer(false, Conflict))])
      else w
    case StoreRuns(id, rev) =>
      if id !in w.instances || !w.instances[id].Writing? || rev in w.revs then w
      else
        var pc := w.instances[id];
        var pc' := if Accepts(w.stored, pc.base) then Wrote(pc.existed) else Refused;
        Applied(desired, w.(instances := w.instances[id := pc']), pc.base, rev)
    case StoreRunsLate(k, rev) =>
      if k >= |w.orphans| || rev in w.revs then w
      else Applied(desired, w.(orphans := w.orphans[..k] + w.orphans[k + 1..]), w.orphans[k], rev)
    case ReplyArrives(id) =>
      if id !in w.instances then w
      else (match w.instances[id]
        case Wrote(existed) =>
          w.(instances := w.instances[id := Done(Answer(true, if existed then Updated else Created))])
        case Refused => w.(instances := w.instances[id := Rereading])
        case _ => w)
    case WriteFails(id) =>
      if id !in w.instances then w
      else (match w.instances[id]
        case Writing(_, _) => w.(instances := w.instances[id := Done(Answer(false, Failed))])
        case Wrote(_) => w.(instances := w.instances[id := Done(Answer(false, Failed))])
        case Refused => w.(instances := w.instances[id := Done(Answer(false, Failed))])
        case _ => w)
    case WriteTimesOut(id) =>
      if id !in w.instances || !w.instances[id].Writing? then w
      else w.(instances := w.instances[id := Done(Answer(false, Failed))],
              orphans := w.orphans + [w.instances[id].base])
  }

  function After(desired: Json, w: World, events: seq<Event>): World
    decreases |events|
  {
    if events == [] then w else After(desired, Next(desired, w, events[0]), events[1..])
  }

  function Start(stored: Option<Stored>): World {
    World(stored, map[], [], if stored.Some? then {stored.value.rev} else {}, 0)
  }

  // ---------------------------------------------------------------- what is written is what was wanted

  lemma {:induction false} WithoutRevMembers(fields: seq<Field>)
    ensures forall f :: f in WithoutRev(fields) <==> f in fields && f.key != "_rev"
    decreases |fields|
  {
    if fields != [] {
      WithoutRevMembers(fields[1..]);
      assert fields == [fields[0]] + fields[1..];
    }
  }

  lemma CanonicalConcatRev(fields: seq<Field>, rev: string)
    ensures CanonicalFields(fields + [Field("_rev", Str(rev))]) == CanonicalFields(fields)
    decreases |fields|
  {
    var s := fields + [Field("_rev", Str(rev))];
    if fields == [] {
      assert s[1..] == [];
    } else {
      assert s[1..] == fields[1..] + [Field("_rev", Str(rev))];
      CanonicalConcatRev(fields[1..], rev);
    }
  }

  lemma {:induction false} CanonicalWithoutRev(fields: seq<Field>)
    ensures CanonicalFields(WithoutRev(fields)) == CanonicalFields(fields)
    decreases |fields|
  {
    if fields != [] {
      CanonicalWithoutRev(fields[1..]);
      if fields[0].key != "_rev" {
        assert WithoutRev(fields)[1..] == WithoutRev(fields[1..]);
      } else {
        assert WithoutRev(fields) == WithoutRev(fields[1..]);
      }
    }
  }

  /** After a write the stored document compares equal, whatever revision it was given. */
  lemma WrittenIsSame(desired: Json, rev: string)
    requires desired.Obj?
    ensures SameDesign(View(Stored(Body(desired), rev)), desired)
  {
    CanonicalConcatRev(WithoutRev(desired.fields), rev);
    CanonicalWithoutRev(desired.fields);
  }

  // ---------------------------------------------------------------- convergence

  ghost predicate Equal(desired: Json, w: World) { w.stored.Some? && SameDesign(View(w.stored.value), desired) }

  /** Before the first write every pending write carries the revision in the store, which is not
      equal; afterwards every pending write carries a revision that is gone. */
  ghost predicate PendingOk(desired: Json, w: World, base: Option<string>) {
    && (base.Some? ==> base.value in w.revs)
    && (if w.writes == 0 then Accepts(w.stored, base) && !Equal(desired, w) else !Accepts(w.stored, base))
  }

  ghost predicate InstanceOk(desired: Json, w: World, pc: Pc) {
    match pc
    case Reading => true
    case Writing(base, _) => PendingOk(desired, w, base)
    case Wrote(_) => Equal(desired, w)
    case Refused => w.writes == 1
    case Rereading => w.writes == 1
    case Done(answer) => answer.ok ==> Equal(desired, w)
  }

  ghost predicate StoreOk(desired: Json, start: Option<Stored>, w: World) {
    && (w.stored.Some? ==> w.stored.value.rev in w.revs)
    && w.writes <= 1
    && (w.writes == 0 ==> w.stored == start)
    && (w.writes == 1 ==> Equal(desired, w) && (start.Some? ==> !SameDesign(View(start.value), desired)))
  }

  ghost predicate Inv(desired: Json, start: Option<Stored>, w: World) {
    && StoreOk(desired, start, w)
    && (forall id :: id in w.instances ==> InstanceOk(desired, w, w.instances[id]))
    && (forall k :: 0 <= k < |w.orphans| ==> PendingOk(desired, w, w.orphans[k]))
  }

  /** A pending write that reaches the store: the first is accepted, every later one is not. */
  lemma ApplyKeepsInv(desired: Json, start: Option<Stored>, w: World, base: Option<string>, rev: string)
    requires desired.Obj? && Inv(desired, start, w) && PendingOk(desired, w, base) && rev !in w.revs
    ensures Inv(desired, start, Applied(desired, w, base, rev))
    ensures Accepts(w.stored, base) <==> w.writes == 0
    ensures Equal(desired, Applied(desired, w, base, rev)) && Applied(desired, w, base, rev).writes == 1
  {
    WrittenIsSame(desired, rev);
    var w' := Applied(desired, w, base, rev);
    forall b | PendingOk(desired, w, b) ensures PendingOk(desired, w', b) {
    }
    forall id | id in w.instances ensures InstanceOk(desired, w', w.instances[id]) {
      assert InstanceOk(desired, w, w.instances[id]);
    }
  }

  lemma SetKeepsInv(desired: Json, start: Option<Stored>, w: World, id: nat, pc: Pc)
    requires Inv(desired, start, w) && InstanceOk(desired, w, pc)
    ensures Inv(desired, start, w.(instances := w.instances[id := pc]))
  {
    var w' := w.(instances := w.instances[id := pc]);
    forall b ensures PendingOk(desired, w, b) <==> PendingOk(desired, w', b) {
    }
    forall i | i in w'.instances ensures InstanceOk(desired, w', w'.instances[i]) {
      assert InstanceOk(desired, w, w'.instances[i]);
    }
  }

  lemma TimeoutKeepsInv(desired: Json, start: Option<Stored>, w: World, id: nat)
    requires Inv(desired, start, w) && id in w.instances && w.instances[id].Writing?
    ensures Inv(desired, start, Next(desired, w, WriteTimesOut(id)))
  {
    assert InstanceOk(desired, w, w.instances[id]);
    var w' := w.(orphans := w.orphans + [w.instances[id].base]);
    assert Inv(desired, start, w');
    SetKeepsInv(desired, start, w', id, Done(Answer(false, Failed)));
  }

  lemma RunKeepsOne(desired: Json, start: Option<Stored>, w: World, id: nat, rev: string)
    requires desired.Obj? && Inv(desired, start, w)
    ensures Inv(desired, start, Next(desired, w, StoreRuns(id, rev)))
  {
    var e := StoreRuns(id, rev);
    if Next(desired, w, e) != w {
      var pc := w.instances[id];
      assert InstanceOk(desired, w, pc);
      ApplyKeepsInv(desired, start, w, pc.base, rev);
      var pc' := if Accepts(w.stored, pc.base) then Wrote(pc.existed) else Refused;
      var w' := Applied(desired, w, pc.base, rev);
      SetKeepsInv(desired, start, w', id, pc');
      assert Next(desired, w, e) == w'.(instances := w'.instances[id := pc']);
    }
  }

  lemma RunLateKeepsOne(desired: Json, start: Option<Stored>, w: World, k: nat, rev: string)
    requires desired.Obj? && Inv(desired, start, w)
    ensures Inv(desired, start, Next(desired, w, StoreRunsLate(k, rev)))
  {
    if k < |w.orphans| && rev !in w.revs {
      assert PendingOk(desired, w, w.orphans[k]);
      var rest := w.(orphans := w.orphans[..k] + w.orphans[k + 1..]);
      ApplyKeepsInv(desired, start, rest, w.orphans[k], rev);
    }
  }

  lemma NextKeepsInv(desired: Json, start: Option<Stored>, w: World, e: Event)
    requires desired.Obj? && Inv(desired, start, w)
    ensures Inv(desired, start, Next(desired, w, e))
  {
    match e
    case StoreRuns(id, rev) => RunKeepsOne(desired, start, w, id, rev);
    case StoreRunsLate(k, rev) => RunLateKeepsOne(desired, start, w, k, rev);
    case WriteTimesOut(id) =>
      if id in w.instances && w.instances[id].Writing? {
        TimeoutKeepsInv(desired, start, w, id);
      }
    case _ =>
      var w' := Next(desired, w, e);
      if w' != w {
        SetKeepsInv(desired, start, w, e.id, w'.instances[e.id]);
      }
  }

  lemma {:induction false} RunKeepsInv(desired: Json, start: Option<Stored>, w: World, events: seq<Event>)
    requires desired.Obj? && Inv(desired, start, w)
    ensures Inv(desired, start, After(desired, w, events))
    decreases |events|
  {
    if events != [] {
      NextKeepsInv(desired, start, w, events[0]);
      RunKeepsInv(desired, start, Next(desired, w, events[0]), events[1..]);
    }
  }

  /**
   * Main result: over every interleaving, with failed reads, lost replies and late writes, at
   * most one write ever succeeds, an already equal document is never overwritten, and whenever
   * some instance has answered ok the store holds an equal document.
   */
  lemma UpsertConverges(desired: Json, start: Option<Stored>, events: seq<Event>)
    requires desired.Obj?
    ensures var w := After(desired, Start(start), events);
      && w.writes <= 1
      && (start.Some? && SameDesign(View(start.value), desired) ==> w.writes == 0 && w.stored == start)
      && (w.writes == 0 ==> w.stored == start)
      && (forall id :: id in w.instances && w.instances[id].Done? && w.instances[id].answer.ok ==> Equal(desired, w))
  {
    RunKeepsInv(desired, start, Start(start), events);
  }

  // ---------------------------------------------------------------- what is answered

  ghost predicate ActionOk(start: Option<Stored>, w: World, pc: Pc) {
    match pc
    case Writing(base, existed) => existed == base.Some?
    case Wrote(existed) => existed == start.Some? && w.writes == 1
    case Done(answer) =>
      && (answer.ok <==> answer.action == Created || answer.action == Updated || answer.action == Unchanged)
      && (answer.action == Created ==> start == None && w.writes == 1)
      && (answer.action == Updated ==> start.Some? && w.writes == 1)
    case _ => true
  }

  /** The instance has seen its own write accepted. */
  predicate HasWritten(pc: Pc) {
    pc.Wrote? || (pc.Done? && (pc.answer.action == Created || pc.answer.action == Updated))
  }

  ghost predicate ActionsOk(start: Option<Stored>, w: World) {
    && (forall id :: id in w.instances ==> ActionOk(start, w, w.instances[id]))
    && (w.writes == 0 ==> forall id :: id in w.instances ==> !HasWritten(w.instances[id]))
    && (forall i, j :: i in w.instances && j in w.instances && HasWritten(w.instances[i]) && HasWritten(w.instances[j])
          ==> i == j)
  }

  lemma StoreRunsActions(desired: Json, start: Option<Stored>, w: World, id: nat, rev: string)
    requires desired.Obj? && Inv(desired, start, w) && ActionsOk(start, w)
    ensures ActionsOk(start, Next(desired, w, StoreRuns(id, rev)))
  {
    if id in w.instances && w.instances[id].Writing? && rev !in w.revs {
      assert InstanceOk(desired, w, w.instances[id]);
      assert ActionOk(start, w, w.instances[id]);
      ApplyKeepsInv(desired, start, w, w.instances[id].base, rev);
      var w' := Next(desired, w, StoreRuns(id, rev));
      assert w'.instances == w.instances[id := w'.instances[id]];
      forall i | i in w'.instances && i != id ensures ActionOk(start, w', w'.instances[i]) {
        assert ActionOk(start, w, w.instances[i]);
      }
    }
  }

  lemma LateRunActions(desired: Json, start: Option<Stored>, w: World, k: nat, rev: string)
    requires desired.Obj? && Inv(desired, start, w) && ActionsOk(start, w)
    ensures ActionsOk(start, Next(desired, w, StoreRunsLate(k, rev)))
  {
    var w' := Next(desired, w, StoreRunsLate(k, rev));
    if w' != w {
      assert PendingOk(desired, w, w.orphans[k]);
      forall i | i in w'.instances ensures ActionOk(start, w', w'.instances[i]) {
        assert ActionOk(start, w, w.instances[i]);
      }
    }
  }

  /** A step that only moves one instance on, which has seen no write accepted that it had not before. */
  lemma SetActions(start: Option<Stored>, w: World, w': World, id: nat, pc: Pc)
    requires ActionsOk(start, w) && ActionOk(start, w, pc)
    requires w'.writes == w.writes && w'.instances == w.instances[id := pc]
    requires HasWritten(pc) ==> id in w.instances && HasWritten(w.instances[id])
    ensures ActionsOk(start, w')
  {
    forall i | i in w'.instances ensures ActionOk(start, w', w'.instances[i]) {
      if i != id {
        assert ActionOk(start, w, w.instances[i]);
      }
    }
  }

  lemma NextActions(desired: Json, start: Option<Stored>, w: World, e: Event)
    requires desired.Obj? && Inv(desired, start, w) && ActionsOk(start, w)
    ensures ActionsOk(start, Next(desired, w, e))
  {
    match e
    case StoreRuns(id, rev) => StoreRunsActions(desired, start, w, id, rev);
    case StoreRunsLate(k, rev) => LateRunActions(desired, start, w, k, rev);
    case Boot(id) =>
      if id !in w.instances { SetActions(start, w, Next(desired, w, e), id, Reading); }
    case _ =>
      var w' := Next(desired, w, e);
      if w' != w {
        assert ActionOk(start, w, w.instances[e.id]);
        SetActions(start, w, w', e.id, w'.instances[e.id]);
      }
  }

  lemma {:induction false} RunActions(desired: Json, start: Option<Stored>, w: World, events: seq<Event>)
    requires desired.Obj? && Inv(desired, start, w) && ActionsOk(start, w)
    ensures Inv(desired, start, After(desired, w, events)) && ActionsOk(start, After(desired, w, events))
    decreases |events|
  {
    if events != [] {
      NextKeepsInv(desired, start, w, events[0]);
      NextActions(desired, start, w, events[0]);
      RunActions(desired, start, Next(desired, w, events[0]), events[1..]);
    }
  }

  /**
   * Main result on the answers: over every interleaving, ok goes with created, updated and unchanged
   * only; at most one instance answers created or updated, and that is created exactly when there was
   * no document at the start; and a first read that is answered decides unchanged exactly when the
   * stored document is then equal, or else to write over the revision read. A first read that fails
   * answers skipped, a write that fails or loses its reply failed, and a refused one reads again.
   */
  lemma AnswersTell(desired: Json, start: Option<Stored>, events: seq<Event>, id: nat)
    requires desired.Obj?
    requires id in After(desired, Start(start), events).instances
    ensures var w := After(desired, Start(start), events);
      var pc := w.instances[id];
      && (pc.Done? ==> (pc.answer.ok <==> pc.answer.action in {Created, Updated, Unchanged}))
      && (pc.Done? && pc.answer.action == Created ==> start == None && w.writes == 1 && Equal(desired, w))
      && (pc.Done? && pc.answer.action == Updated ==> start.Some? && w.writes == 1 && Equal(desired, w))
      && (pc.Done? && pc.answer.action == Unchanged ==> Equal(desired, w))
      && (pc.Wrote? ==> Next(desired, w, ReplyArrives(id)).instances[id]
                        == Done(Answer(true, if start == None then Created else Updated)))
      && (pc.Reading? ==>
            Next(desired, w, GetAnswers(id)).instances[id] ==
              if Equal(desired, w) then Done(Answer(true, Unchanged))
              else Writing(if w.stored == None then None else Some(w.stored.value.rev), w.stored != None))
      && (HasWritten(pc) ==> forall j :: j in w.instances && HasWritten(w.instances[j]) ==> j == id)
      && (pc.Reading? ==> Next(desired, w, GetFails(id)).instances[id] == Done(Answer(false, Skipped)))
      && (pc.Rereading? ==> Next(desired, w, GetFails(id)).instances[id] == Done(Answer(false, Conflict)))
      && (pc.Refused? ==> Next(desired, w, ReplyArrives(id)).instances[id] == Rereading)
      && (pc.Writing? || pc.Wrote? || pc.Refused? ==>
            Next(desired, w, WriteFails(id)).instances[id] == Done(Answer(false, Failed)))
  {
    RunActions(desired, start, Start(start), events);
    var w := After(desired, Start(start), events);
    assert ActionOk(start, w, w.instances[id]) && InstanceOk(desired, w, w.instances[id]);
  }

  /** A 409 is resolved: an instance whose re-read is answered reports the document unchanged. */
  lemma RereadFindsEqual(desired: Json, start: Option<Stored>, events: seq<Event>, id: nat)
    requires desired.Obj?
    requires var w := After(desired, Start(start), events); id in w.instances && w.instances[id].Rereading?
    ensures var w := After(desired, Start(start), events);
      Next(desired, w, GetAnswers(id)).instances[id] == Done(Answer(true, Unchanged))
  {
    RunKeepsInv(desired, start, Start(start), events);
  }
}
