/**
 * When a move is refused and why, said of the stored fields themselves; and what that is worth for
 * the owner's MQTT key, which never leaves its owner by a move.
 */
module KeyRefusals {
  import JsText
  import opened Wrappers
  import opened KeyEntries
  import opened KeyTransfers
  import opened KeyConservation
  import opened KeySteps

  // ---------------------------------------------------------------- what an entry says

  /** The device's lastkey is the hash of the entry's key, its hash, or the hash of its hash. */
  ghost predicate Names(sha: Sha, e: Value, lastkey: string) {
    lastkey != "" && exists s :: (Says(e, "key", s) && lastkey == sha(s))
                                 || (Says(e, "hash", s) && (lastkey == s || lastkey == sha(s)))
  }

  /** The entry is called the owner's MQTT key. */
  ghost predicate IsMqtt(e: Value) {
    exists s, i :: Says(e, "alias", s) && 0 <= i <= |s| && "Default MQTT API Key" <= s[i..]
  }

  /** The two entries share a hash or a key. */
  ghost predicate Shares(a: Value, b: Value) {
    exists s :: (Says(a, "hash", s) && Says(b, "hash", s)) || (Says(a, "key", s) && Says(b, "key", s))
  }

  lemma NamesIffHit(sha: Sha, e: Value, lastkey: string)
    ensures Names(sha, e, lastkey) <==> Hit(sha, e, lastkey)
  {
    var key, hash := Text(e, "key"), Text(e, "hash");
    assert key != "" ==> Says(e, "key", key);
    assert hash != "" ==> Says(e, "hash", hash);
  }

  lemma MqttIff(e: Value)
    ensures IsMqtt(e) <==> IsOwnerMqttKey(e)
  {
    var alias := Text(e, "alias");
    JsText.ContainsIff(alias, MQTT_ALIAS);
    if IsOwnerMqttKey(e) {
      var i :| 0 <= i <= |alias| && MQTT_ALIAS <= alias[i..];
      assert Says(e, "alias", alias);
    }
  }

  lemma SharesIff(a: Value, b: Value)
    ensures Shares(a, b) <==> SameKey(a, b)
  {
    if SameKey(a, b) {
      if SafeEqual(Text(a, "hash"), Text(b, "hash")) {
        assert Says(a, "hash", Text(a, "hash")) && Says(b, "hash", Text(a, "hash"));
      } else {
        assert Says(a, "key", Text(a, "key")) && Says(b, "key", Text(a, "key"));
      }
    }
  }

  // ---------------------------------------------------------------- why a move is refused

  /** lastkey names this entry and no other. */
  ghost predicate NamesOnly(sha: Sha, entries: seq<Value>, lastkey: string, i: int) {
    0 <= i < |entries| && forall j :: 0 <= j < |entries| ==> (Names(sha, entries[j], lastkey) <==> j == i)
  }

  ghost predicate NamesTwo(sha: Sha, entries: seq<Value>, lastkey: string) {
    exists i, j :: 0 <= i < j < |entries| && Names(sha, entries[i], lastkey) && Names(sha, entries[j], lastkey)
  }

  ghost predicate NamesNone(sha: Sha, entries: seq<Value>, lastkey: string) {
    forall i :: 0 <= i < |entries| ==> !Names(sha, entries[i], lastkey)
  }

  /** Names at each position, as the search tests it. */
  lemma NamesAreHits(sha: Sha, entries: seq<Value>, lastkey: string)
    ensures forall i :: 0 <= i < |entries| ==> (Names(sha, entries[i], lastkey) <==> Hit(sha, entries[i], lastkey))
  {
    forall i | 0 <= i < |entries| ensures Names(sha, entries[i], lastkey) <==> Hit(sha, entries[i], lastkey) {
      NamesIffHit(sha, entries[i], lastkey);
    }
  }

  lemma OneFound(sha: Sha, entries: seq<Value>, lastkey: string, i: int)
    ensures NamesOnly(sha, entries, lastkey, i) <==>
            0 <= i < |entries| && FindDeviceKey(sha, entries, lastkey) == Found(i, entries[i])
  {
    if 0 <= i < |entries| {
      NamesAreHits(sha, entries, lastkey);
      FoundIffOnlyHit(sha, entries, lastkey, i);
    }
  }

  lemma NoneFound(sha: Sha, entries: seq<Value>, lastkey: string)
    ensures NamesNone(sha, entries, lastkey) <==> FindDeviceKey(sha, entries, lastkey).NotIdentified?
  {
    NamesAreHits(sha, entries, lastkey);
    HitsAreHits(sha, entries, lastkey);
    var hits := Hits(sha, entries, lastkey);
    if |hits| > 0 {
      assert Names(sha, entries[hits[0]], lastkey);
    }
  }

  lemma TwoFound(sha: Sha, entries: seq<Value>, lastkey: string)
    ensures NamesTwo(sha, entries, lastkey) <==> FindDeviceKey(sha, entries, lastkey).Ambiguous?
  {
    NamesAreHits(sha, entries, lastkey);
    HitsAreHits(sha, entries, lastkey);
    var hits := Hits(sha, entries, lastkey);
    if |hits| > 1 {
      assert hits[0] < hits[1] && Names(sha, entries[hits[0]], lastkey) && Names(sha, entries[hits[1]], lastkey);
    }
  }

  /** What a move that has read its source finds of the list it moves to. */
  function TargetNow(c: Codec, stores: Stores, job: Job): Option<seq<Value>> {
    var to := if job.MoveJob? then job.to else job.record.source;
    c.Entries(if to in stores then Some(stores[to]) else None)
  }

  ghost predicate Taken(target: seq<Value>, e: Value) {
    exists j :: 0 <= j < |target| && Shares(target[j], e)
  }

  /** The one entry that lastkey names may move: only a restore moves the owner's MQTT key, and
      nothing moves next to its like. */
  ghost predicate MayMove(sha: Sha, job: Job, source: seq<Value>, target: seq<Value>, i: int) {
    NamesOnly(sha, source, job.Lastkey(), i) && (job.RestoreJob? || !IsMqtt(source[i])) && !Taken(target, source[i])
  }

  lemma TakenIff(target: seq<Value>, e: Value)
    ensures Taken(target, e) <==> HoldsSameKey(target, e)
  {
    forall j | 0 <= j < |target| ensures Shares(target[j], e) <==> SameKey(target[j], e) {
      SharesIff(target[j], e);
    }
  }

  /** The reasons, from what the search finds. */
  lemma PlanBranches(c: Codec, op: Op, n: nat, r: (Option<string>, Option<string>), texts: (string, string), at: string)
    requires !op.pc.Refused? && c.Entries(r.0).Some? && c.Entries(r.1).Some?
    ensures var f, answer := FindDeviceKey(c.sha, c.Entries(r.0).value, op.job.Lastkey()),
      Plan(c, op, n, r.0, r.1, texts, at).pc;
      && (answer == Refused(NotIdentifiedKey) <==> f.NotIdentified?)
      && (answer == Refused(AmbiguousKey) <==> f.Ambiguous?)
      && (answer == Refused(OwnerMqttKey) <==> f.Found? && op.job.MoveJob? && IsOwnerMqttKey(f.entry))
      && (answer == Refused(MoveFailed) <==>
            f.Found? && (op.job.RestoreJob? || !IsOwnerMqttKey(f.entry)) && HoldsSameKey(c.Entries(r.1).value, f.entry))
      && (answer.Refused? ==> answer.refusal in {NotIdentifiedKey, AmbiguousKey, OwnerMqttKey, MoveFailed})
  {
  }

  /** What holds of the one entry named, when there is one. */
  lemma OneOnly(sha: Sha, entries: seq<Value>, lastkey: string, holds: Value -> bool)
    ensures (exists i :: NamesOnly(sha, entries, lastkey, i) && holds(entries[i]))
       <==> FindDeviceKey(sha, entries, lastkey).Found? && holds(FindDeviceKey(sha, entries, lastkey).entry)
  {
    var f := FindDeviceKey(sha, entries, lastkey);
    if f.Found? {
      OneFound(sha, entries, lastkey, f.index);
    }
    if i :| NamesOnly(sha, entries, lastkey, i) && holds(entries[i]) {
      OneFound(sha, entries, lastkey, i);
    }
  }

  /** Main result: with both lists read, each refusal is answered exactly for its own reason. */
  lemma RefusedIff(c: Codec, stores: Stores, op: Op, texts: (string, string), at: string)
    requires op.pc.ReadTarget?
    ensures var source, target := c.Entries(op.pc.rawSource), TargetNow(c, stores, op.job);
      var answer, lastkey := OnAnswer(c, stores, op, texts, at).pc, op.job.Lastkey();
      if source.None? || target.None? then answer == Refused(MoveFailed)
      else
        && (answer == Refused(NotIdentifiedKey) <==> NamesNone(c.sha, source.value, lastkey))
        && (answer == Refused(AmbiguousKey) <==> NamesTwo(c.sha, source.value, lastkey))
        && (answer == Refused(OwnerMqttKey) <==>
              op.job.MoveJob? && exists i :: NamesOnly(c.sha, source.value, lastkey, i) && IsMqtt(source.value[i]))
        && (answer == Refused(MoveFailed) <==>
              exists i :: NamesOnly(c.sha, source.value, lastkey, i)
                && (op.job.RestoreJob? || !IsMqtt(source.value[i])) && Taken(target.value, source.value[i]))
        && (answer.Refused? ==> answer.refusal in {NotIdentifiedKey, AmbiguousKey, OwnerMqttKey, MoveFailed})
  {
    var source, target := c.Entries(op.pc.rawSource), TargetNow(c, stores, op.job);
    if source.Some? && target.Some? {
      var lastkey := op.job.Lastkey();
      PlanBranches(c, op, op.pc.attempt, (op.pc.rawSource, Raw(stores, op.job.Target())), texts, at);
      NoneFound(c.sha, source.value, lastkey);
      TwoFound(c.sha, source.value, lastkey);
      OneOnly(c.sha, source.value, lastkey, e => IsMqtt(e));
      OneOnly(c.sha, source.value, lastkey, e => (op.job.RestoreJob? || !IsMqtt(e)) && Taken(target.value, e));
      var f := FindDeviceKey(c.sha, source.value, lastkey);
      if f.Found? {
        MqttIff(f.entry);
        TakenIff(target.value, f.entry);
      }
    }
  }

  /** A plan reads as the lists it was made from, without the one entry named, and with it moved. */
  lemma PlanIs(c: Codec, op: Op, n: nat, r: (Option<string>, Option<string>), texts: (string, string), at: string)
    requires !op.pc.Sent? && Plan(c, op, n, r.0, r.1, texts, at).pc.Sent?
    ensures c.Entries(r.0).Some? && c.Entries(r.1).Some?
    ensures var source, target := c.Entries(r.0).value, c.Entries(r.1).value;
      var f, sent := FindDeviceKey(c.sha, source, op.job.Lastkey()), Plan(c, op, n, r.0, r.1, texts, at).pc;
      && f.Found? && (op.job.RestoreJob? || !IsOwnerMqttKey(f.entry)) && !HoldsSameKey(target, f.entry)
      && sent.plan.source == op.job.Source() && sent.plan.target == op.job.Target()
      && sent.plan.before == (Wire(r.0), Wire(r.1))
      && c.parse(sent.plan.after.0) == Some(RemoveAt(source, f.index))
      && exists moved :: c.parse(sent.plan.after.1) == Some(target + [moved]) && Core(moved) == Core(f.entry)
  {
    var source, target := c.Entries(r.0).value, c.Entries(r.1).value;
    var f := FindDeviceKey(c.sha, source, op.job.Lastkey());
    HitsAreHits(c.sha, source, op.job.Lastkey());
    MovedKeepsCore(f.entry, op.job.Source(), op.job.Target(), op.job.Udid(), at, op.job.Strip(), target);
  }

  /** What is sent otherwise: the lists as read, without the one entry that lastkey names and may
      move, and with that entry last. */
  lemma SentIs(c: Codec, stores: Stores, op: Op, texts: (string, string), at: string)
    requires op.pc.ReadTarget? && OnAnswer(c, stores, op, texts, at).pc.Sent?
    ensures var plan := OnAnswer(c, stores, op, texts, at).pc.plan;
      var source, target := c.Entries(op.pc.rawSource), TargetNow(c, stores, op.job);
      && source.Some? && target.Some?
      && plan.source == op.job.Source() && plan.target == op.job.Target()
      && plan.before == (Wire(op.pc.rawSource), Wire(Raw(stores, op.job.Target())))
      && exists i, moved :: MayMove(c.sha, op.job, source.value, target.value, i)
           && c.parse(plan.after.0) == Some(source.value[..i] + source.value[i + 1..])
           && c.parse(plan.after.1) == Some(target.value + [moved]) && Core(moved) == Core(source.value[i])
  {
    var r := (op.pc.rawSource, Raw(stores, op.job.Target()));
    PlanIs(c, op, op.pc.attempt, r, texts, at);
    var source, target := c.Entries(r.0).value, c.Entries(r.1).value;
    var f := FindDeviceKey(c.sha, source, op.job.Lastkey());
    OneFound(c.sha, source, op.job.Lastkey(), f.index);
    MqttIff(f.entry);
    TakenIff(target, f.entry);
    assert MayMove(c.sha, op.job, source, target, f.index);
  }

  /** A created key is named by the hash of the key, and by nothing of another well-formed entry with
      another key, when the hash has no collisions. */
  lemma CreatedIsNamed(sha: Sha, key: string, alias: string, other: Value)
    requires key != "" && forall x, y :: sha(x) == sha(y) ==> x == y
    requires sha(key) != "" && WellFormed(sha, other) && !Says(other, "key", key) && !Says(other, "hash", key)
    ensures Names(sha, NewEntry(sha, key, alias), sha(key)) && !Names(sha, other, sha(key))
    ensures WellFormed(sha, NewEntry(sha, key, alias)) &&
      (alias != "" ==> Says(NewEntry(sha, key, alias), "alias", alias))
  {
    assert Says(NewEntry(sha, key, alias), "key", key);
    assert Says(other, "key", Text(other, "key")) && Says(other, "hash", Text(other, "hash"));
  }

  // ---------------------------------------------------------------- contention, and the re-read

  /** Over every run, a swap that met other texts is tried again from fresh reads until the third,
      which refuses the move; a restore has its own swap before these. */
  lemma RefusedOnThirdMiss(c: Codec, stores: Stores, events: seq<Event>, id: nat, texts: (string, string), at: string)
    requires c.Valid()
    requires var w := After(c, Start(stores), events);
      id in w.ops && w.ops[id].pc.Replied? && !w.ops[id].pc.applied
    ensures var w := After(c, Start(stores), events);
      var op, op' := w.ops[id], OnAnswer(c, w.stores, w.ops[id], texts, at);
      && (op'.pc == Refused(MoveFailed) <==> op.sent == if op.job.MoveJob? then 3 else 4)
      && (op'.pc != Refused(MoveFailed) ==> op'.pc.ReadSource? && op'.sent == op.sent)
  {
    RunKeepsInv(c, Start(stores), events);
    assert OpInv(c, After(c, Start(stores), events).ops[id]);
  }

  ghost predicate NoneShares(entries: seq<Value>, e: Value) {
    forall i :: 0 <= i < |entries| ==> !Shares(entries[i], e)
  }

  ghost predicate OnlyShare(entries: seq<Value>, e: Value, i: int) {
    0 <= i < |entries| && forall j :: 0 <= j < |entries| ==> (Shares(entries[j], e) <==> i == j)
  }

  ghost predicate OneShares(entries: seq<Value>, e: Value) { exists i :: OnlyShare(entries, e, i) }

  lemma OneSharesNext(before: seq<Value>, last: Value, e: Value)
    ensures NoneShares(before + [last], e) <==> NoneShares(before, e) && !Shares(last, e)
    ensures OneShares(before + [last], e) <==>
            if Shares(last, e) then NoneShares(before, e) else OneShares(before, e)
  {
    var n, all := |before|, before + [last];
    assert all[n] == last && forall j :: 0 <= j < n ==> all[j] == before[j];
    if OneShares(before, e) && !Shares(last, e) {
      var i :| OnlyShare(before, e, i);
      assert OnlyShare(all, e, i);
    }
    if NoneShares(before, e) && Shares(last, e) {
      assert OnlyShare(all, e, n);
    }
    if OneShares(all, e) {
      var i :| OnlyShare(all, e, i);
      if i < n {
        assert OnlyShare(before, e, i);
      }
    }
  }

  lemma {:induction false} SharesCounted(entries: seq<Value>, e: Value)
    ensures CountSameKey(entries, e) == 0 <==> NoneShares(entries, e)
    ensures CountSameKey(entries, e) == 1 <==> OneShares(entries, e)
  {
    if entries != [] {
      var n := |entries| - 1;
      SharesCounted(entries[..n], e);
      SharesIff(entries[n], e);
      OneSharesNext(entries[..n], entries[n], e);
      assert entries == entries[..n] + [entries[n]];
    }
  }

  /** What a re-read answers: success when the entry is once in the target and not in the source,
      failure the other way round, and neither otherwise. */
  lemma RereadIff(c: Codec, stores: Stores, op: Op, texts: (string, string), at: string)
    requires op.pc.CheckTarget?
    ensures var source, target := c.Entries(op.pc.rawSource), TargetNow(c, stores, op.job);
      var answer, e := OnAnswer(c, stores, op, texts, at).pc, op.pc.entry;
      && (answer == Refused(OutcomeUnknown) <==> source.None? || target.None?)
      && (answer.Moved? || answer.MovedBack? <==>
            source.Some? && target.Some? && NoneShares(source.value, e) && OneShares(target.value, e))
      && (answer == Refused(MoveFailed) <==>
            source.Some? && target.Some? && OneShares(source.value, e) && NoneShares(target.value, e))
      && (answer.Moved? || answer.MovedBack? || answer.Refused?)
  {
    var source, target := c.Entries(op.pc.rawSource), TargetNow(c, stores, op.job);
    if source.Some? && target.Some? {
      SharesCounted(source.value, op.pc.entry);
      SharesCounted(target.value, op.pc.entry);
    }
  }

  /** "restored" is answered exactly when the restore's own swap is known to have applied, or both stores
      are read with the texts from before the move; failing that, the strip move begins. */
  lemma RestoredIff(c: Codec, stores: Stores, op: Op, texts: (string, string), at: string)
    requires op.job.RestoreJob? && !op.pc.Restored?
    ensures var record := op.job.record;
      var now := OnAnswer(c, stores, op, texts, at).pc;
      && (now.Restored? <==>
            || op.pc == BackReplied(true)
            || (op.pc.BackReadTarget?
                && (if op.pc.rawSource == None then "" else op.pc.rawSource.value) == record.before.0
                && (if record.target in stores then stores[record.target] else "") == record.before.1))
      && (op.pc == BackReplied(false) ==> now == BackReadSource)
      && (op.pc.BackReadTarget? && !now.Restored? ==> now == ReadSource(1))
  {
  }

  /** What a failure means: of a read before the swap, refusal; of the swap or its reply, a re-read; of
      that re-read, that the outcome is unknown. A restore goes on to its next way instead. */
  lemma FailureMeans(op: Op)
    requires !op.pc.Refused? && !op.pc.Restored? && !op.pc.Moved? && !op.pc.MovedBack?
    ensures var now := OnFail(op).pc;
      && (now == Refused(MoveFailed) <==> op.pc.ReadSource? || op.pc.ReadTarget?)
      && (now == Refused(OutcomeUnknown) <==> op.pc.CheckSource? || op.pc.CheckTarget?)
      && (now.CheckSource? <==> op.pc.Sent? || op.pc.Replied?)
      && (now == BackReadSource <==> op.pc.BackSent? || op.pc.BackReplied?)
      && (now == ReadSource(1) <==> op.pc.BackReadSource? || op.pc.BackReadTarget?)
      && (op.pc.Sent? || op.pc.Replied? ==> now.entry == op.pc.entry && now.plan == op.pc.plan)
  {
  }

  /** An alias that an entry of the target has is marked as transferred, with the first eight characters
      of the device; any other stays; and the binding names the device, and the time given. */
  lemma MovedSays(e: Value, source: string, target: string, udid: string, at: string, strip: bool,
                  others: seq<Value>)
    requires IsEntry(e) && "alias" in e.fields && e.fields["alias"].Str?
    ensures var r := MovedEntry(e, source, target, udid, at, strip, others).fields;
      var alias := e.fields["alias"].text;
      && "alias" in r
      && r["alias"] == (if exists j :: 0 <= j < |others| && others[j].Obj? && "alias" in others[j].fields
                                       && others[j].fields["alias"] == Str(alias)
                        then Str(alias + " (transferred " + (if |udid| < 8 then udid else udid[..8]) + ")")
                        else Str(alias))
      && (strip <==> "transfer" !in r)
      && (!strip ==> r["transfer"].Obj? && "udid" in r["transfer"].fields && "at" in r["transfer"].fields
                     && r["transfer"].fields["udid"] == Str(udid) && r["transfer"].fields["at"] == Str(at))
  {
    var prefix := if |udid| <= 8 then udid else udid[..8];
    assert prefix == if |udid| < 8 then udid else udid[..8];
  }

  // ---------------------------------------------------------------- the owner's MQTT key stays

  /** The entries a text on the wire stands for; "" is no store, and an unreadable text holds none. */
  function Listing(c: Codec, text: string): seq<Value> {
    if text == "" || c.parse(text) == None then [] else c.parse(text).value
  }

  /** No MQTT key goes from one text to the next. */
  ghost predicate KeepsMqtt(c: Codec, before: string, after: string) {
    forall e :: IsMqtt(e) && e in Listing(c, before) ==> e in Listing(c, after)
  }

  ghost predicate SwapKeepsMqtt(c: Codec, s: Swap) {
    s.source != s.target && KeepsMqtt(c, s.expected.0, s.next.0) && KeepsMqtt(c, s.expected.1, s.next.1)
  }

  lemma RemovedOther(entries: seq<Value>, i: nat, e: Value)
    requires i < |entries| && e in entries && e != entries[i]
    ensures e in RemoveAt(entries, i)
  {
    var j :| 0 <= j < |entries| && entries[j] == e;
    if j < i {
      assert RemoveAt(entries, i)[j] == e;
    } else {
      assert RemoveAt(entries, i)[j - 1] == e;
    }
  }

  lemma ListingIs(c: Codec, raw: Option<string>)
    requires c.Valid() && c.Entries(raw).Some?
    ensures Listing(c, Wire(raw)) == c.Entries(raw).value
  {
  }

  lemma PlanKeepsMqtt(c: Codec, op: Op, n: nat, r: (Option<string>, Option<string>), texts: (string, string),
                      at: string)
    requires c.Valid() && op.job.MoveJob? && op.job.from != op.job.to
    requires !op.pc.Sent? && Plan(c, op, n, r.0, r.1, texts, at).pc.Sent?
    ensures SwapKeepsMqtt(c, Forth(Plan(c, op, n, r.0, r.1, texts, at).pc.plan))
  {
    PlanIs(c, op, n, r, texts, at);
    var source, target := c.Entries(r.0).value, c.Entries(r.1).value;
    var plan := Plan(c, op, n, r.0, r.1, texts, at).pc.plan;
    var f := FindDeviceKey(c.sha, source, op.job.Lastkey());
    ListingIs(c, r.0);
    ListingIs(c, r.1);
    MqttIff(f.entry);
    forall e | IsMqtt(e) && e in source ensures e in Listing(c, plan.after.0) {
      RemovedOther(source, f.index, e);
    }
    var moved :| c.parse(plan.after.1) == Some(target + [moved]) && Core(moved) == Core(f.entry);
    assert forall e :: e in target ==> e in target + [moved];
  }

  // ---------------------------------------------------------------- every step keeps it

  /** An operation whose swap under way, if any, keeps the MQTT keys. */
  ghost predicate OpKeepsMqtt(c: Codec, op: Op) {
    && op.job.MoveJob? && (op.pc.Refused? || op.job.from != op.job.to)
    && (op.pc.Sent? ==> SwapKeepsMqtt(c, Forth(op.pc.plan)))
  }

  ghost predicate AllKeepMqtt(c: Codec, w: World) {
    && (forall id :: id in w.ops ==> OpKeepsMqtt(c, w.ops[id]))
    && (forall k :: 0 <= k < |w.orphans| ==> SwapKeepsMqtt(c, w.orphans[k].swap))
  }

  lemma AnswerKeepsMqtt(c: Codec, stores: Stores, op: Op, texts: (string, string), at: string)
    requires c.Valid() && OpKeepsMqtt(c, op)
    ensures OpKeepsMqtt(c, OnAnswer(c, stores, op, texts, at))
  {
    AnswerKeepsJob(c, stores, op, texts, at);
    var op' := OnAnswer(c, stores, op, texts, at);
    if op.pc.ReadTarget? && op'.pc.Sent? {
      PlanKeepsMqtt(c, op, op.pc.attempt, (op.pc.rawSource, Raw(stores, op.job.Target())), texts, at);
    }
  }

  lemma FailKeepsMqtt(c: Codec, stores: Stores, op: Op)
    requires OpKeepsMqtt(c, op)
    ensures OpKeepsMqtt(c, OnFail(op)) && OpKeepsMqtt(c, OnRun(stores, op))
    ensures Pending(op).Some? ==> SwapKeepsMqtt(c, Pending(op).value)
  {
  }

  lemma NextKeepsMqtt(c: Codec, w: World, e: Event)
    requires c.Valid() && AllKeepMqtt(c, w) && !(e.Begin? && e.job.RestoreJob?)
    ensures AllKeepMqtt(c, Next(c, w, e))
  {
    match e
    case Answer(id, texts, at) =>
      if id in w.ops { AnswerKeepsMqtt(c, w.stores, w.ops[id], texts, at); }
    case Fail(id) =>
      if id in w.ops { FailKeepsMqtt(c, w.stores, w.ops[id]); }
    case GiveUp(id) =>
      if id in w.ops { FailKeepsMqtt(c, w.stores, w.ops[id]); }
    case Run(id) =>
      if id in w.ops { FailKeepsMqtt(c, w.stores, w.ops[id]); }
    case _ =>
  }

  /** The entry is in the owner's store. */
  ghost predicate Owns(c: Codec, stores: Stores, owner: string, e: Value) {
    e in Listing(c, Wire(Raw(stores, owner)))
  }

  lemma SwapLeavesMqtt(c: Codec, stores: Stores, s: Swap, owner: string, e: Value)
    requires SwapKeepsMqtt(c, s) && IsMqtt(e) && Owns(c, stores, owner, e)
    ensures Owns(c, Swapped(stores, s), owner, e)
  {
  }

  lemma CreateLeaves(c: Codec, w: World, step: Event, owner: string, e: Value)
    requires c.Valid() && step.Create? && Owns(c, w.stores, owner, e)
    ensures Owns(c, Next(c, w, step).stores, owner, e)
  {
    if Next(c, w, step) != w && step.owner == owner {
      ListingIs(c, Raw(w.stores, owner));
      assert e in c.Entries(Raw(w.stores, owner)).value + [NewEntry(c.sha, step.key, step.alias)];
    }
  }

  lemma {:induction false} UnlistedIsKept(entries: seq<Value>, hashes: seq<string>, e: Value)
    requires e in entries && !exists h :: h in hashes && e.Obj? && "hash" in e.fields && e.fields["hash"] == Str(h)
    ensures e in Kept(entries, hashes)
  {
    var n := |entries| - 1;
    assert entries == entries[..n] + [entries[n]];
    if e in entries[..n] {
      UnlistedIsKept(entries[..n], hashes, e);
    }
  }

  /** This step is a revoke of the entry by its owner's hash. */
  ghost predicate Revokes(step: Event, owner: string, e: Value) {
    step.Revoke? && step.owner == owner
    && exists h :: h in step.hashes && e.Obj? && "hash" in e.fields && e.fields["hash"] == Str(h)
  }

  lemma RevokeLeaves(c: Codec, w: World, step: Event, owner: string, e: Value)
    requires c.Valid() && step.Revoke? && !Revokes(step, owner, e) && Owns(c, w.stores, owner, e)
    ensures Owns(c, Next(c, w, step).stores, owner, e)
  {
    if Next(c, w, step) != w && step.owner == owner {
      ListingIs(c, Raw(w.stores, owner));
      UnlistedIsKept(c.Entries(Raw(w.stores, owner)).value, step.hashes, e);
    }
  }

  lemma StepLeavesMqtt(c: Codec, w: World, step: Event, owner: string, e: Value)
    requires c.Valid() && AllKeepMqtt(c, w) && IsMqtt(e)
    requires Owns(c, w.stores, owner, e) && !Revokes(step, owner, e)
    ensures Owns(c, Next(c, w, step).stores, owner, e)
  {
    match step
    case Run(id) =>
      if id in w.ops && Pending(w.ops[id]).Some? {
        FailKeepsMqtt(c, w.stores, w.ops[id]);
        SwapLeavesMqtt(c, w.stores, Pending(w.ops[id]).value, owner, e);
      }
    case RunLate(k) =>
      if k < |w.orphans| { SwapLeavesMqtt(c, w.stores, w.orphans[k].swap, owner, e); }
    case Create(_, _, _, _) => CreateLeaves(c, w, step, owner, e);
    case Revoke(_, _, _) => RevokeLeaves(c, w, step, owner, e);
    case _ =>
  }

  lemma {:induction false} RunLeavesMqtt(c: Codec, w: World, events: seq<Event>, owner: string, e: Value)
    requires c.Valid() && AllKeepMqtt(c, w) && NoRestore(events) && IsMqtt(e) && Owns(c, w.stores, owner, e)
    requires forall k :: 0 <= k < |events| ==> !Revokes(events[k], owner, e)
    ensures Owns(c, After(c, w, events).stores, owner, e)
    decreases |events|
  {
    if events != [] {
      NextKeepsMqtt(c, w, events[0]);
      StepLeavesMqtt(c, w, events[0], owner, e);
      RunLeavesMqtt(c, Next(c, w, events[0]), events[1..], owner, e);
    }
  }

  /** Main result: over every run without restores, whatever moves, lost replies, late swaps and
      creates it holds, an owner's MQTT key leaves its owner only by a revoke that lists its hash. */
  lemma MqttKeyStays(c: Codec, stores: Stores, events: seq<Event>, owner: string, e: Value)
    requires c.Valid() && NoRestore(events) && IsMqtt(e) && Owns(c, stores, owner, e)
    ensures Owns(c, After(c, Start(stores), events).stores, owner, e)
         || exists k :: 0 <= k < |events| && Revokes(events[k], owner, e)
  {
    if forall k :: 0 <= k < |events| ==> !Revokes(events[k], owner, e) {
      RunLeavesMqtt(c, Start(stores), events, owner, e);
    }
  }
}
