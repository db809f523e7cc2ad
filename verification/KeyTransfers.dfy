/**
 * The device-key transfer protocol as a step machine: any number of moves and restores run
 * interleaved over the owners' stores, each with two separate GETs, one atomic two-key
 * compare-and-swap whose reply may be lost, and re-reads that decide the outcome.
 */
module KeyTransfers {
  import opened Wrappers
  import opened KeyEntries

  /** How a stored text reads as a list (None: not a JSON array), and the hash in use. */
  datatype Codec = Codec(parse: string -> Option<seq<Value>>, sha: Sha) {
    /** JSON.parse refuses the empty text, which on the wire stands for an absent store. */
    predicate Valid() { parse("") == None }

    function Entries(raw: Option<string>): Option<seq<Value>> {
      if raw == None then Some([]) else parse(raw.value)
    }
  }

  type Stores = map<string, string>

  const MAX_ATTEMPTS := 3

  function Raw(stores: Stores, owner: string): Option<string> {
    if owner in stores then Some(stores[owner]) else None
  }

  /** A raw value as the swap script sees it: an absent key reads as "". */
  function Wire(raw: Option<string>): string {
    if raw == None then "" else raw.value
  }

  /** Writing "" deletes the key. */
  function Write(stores: Stores, owner: string, next: string): Stores {
    if next == "" then stores - {owner} else stores[owner := next]
  }

  /** back tells the swap of a restore from the swap of a move. */
  datatype Swap = Swap(source: string, target: string, expected: (string, string), next: (string, string), back: bool)

  predicate Matches(stores: Stores, s: Swap) {
    Wire(Raw(stores, s.source)) == s.expected.0 && Wire(Raw(stores, s.target)) == s.expected.1
  }

  function Swapped(stores: Stores, s: Swap): Stores {
    if Matches(stores, s) then Write(Write(stores, s.source, s.next.0), s.target, s.next.1) else stores
  }

  /** What moveDeviceKey answers on success and restoreDeviceKey takes back. */
  datatype Move = Move(source: string, target: string, before: (string, string), after: (string, string),
                       lastkey: string, udid: string, at: string)

  function Forth(m: Move): Swap { Swap(m.source, m.target, m.before, m.after, false) }

  function Back(m: Move): Swap { Swap(m.source, m.target, m.after, m.before, true) }

  /** The three ways a move answers apikey_move_failed differ in what is known of the stores. */
  datatype Refusal =
    NotIdentifiedKey | AmbiguousKey | OwnerMqttKey | MoveFailed | OutcomeUnknown | OutcomeInconsistent
  {
    function Reason(): string {
      match this
      case NotIdentifiedKey => "apikey_not_identified"
      case AmbiguousKey => "apikey_ambiguous"
      case OwnerMqttKey => "apikey_owner_mqtt_key"
      case _ => "apikey_move_failed"
    }
  }

  datatype Job =
    | MoveJob(from: string, to: string, key: string, device: string)
    | RestoreJob(record: Move)
  {
    function Source(): string { if MoveJob? then from else record.target }
    function Target(): string { if MoveJob? then to else record.source }
    function Lastkey(): string { if MoveJob? then key else record.lastkey }
    function Udid(): string { if MoveJob? then device else record.udid }
    predicate Strip() { RestoreJob? }
  }

  /** Where an operation stands. Sent means the swap is on its way to the server. */
  datatype Pc =
    | BackSent | BackReplied(applied: bool) | BackReadSource | BackReadTarget(rawSource: Option<string>)
    | ReadSource(attempt: nat)
    | ReadTarget(attempt: nat, rawSource: Option<string>)
    | Sent(attempt: nat, entry: Value, plan: Move)
    | Replied(attempt: nat, entry: Value, plan: Move, applied: bool)
    | CheckSource(entry: Value, plan: Move)
    | CheckTarget(entry: Value, plan: Move, rawSource: Option<string>)
    | Moved(move: Move) | Refused(refusal: Refusal) | Restored | MovedBack

  /** An operation, with the number of swaps it has sent. */
  datatype Op = Op(job: Job, pc: Pc, sent: nat)

  /** A swap whose sender gave up on it while it was still on its way. */
  datatype Orphan = Orphan(of: nat, swap: Swap)

  /** All stores, all operations, and the swaps whose senders gave up but that may still run;
      created and revoked record what the other writers added and removed. */
  datatype World = World(stores: Stores, ops: map<nat, Op>, orphans: seq<Orphan>,
                         created: multiset<Value>, revoked: multiset<Value>)

  datatype Event =
    | Begin(id: nat, job: Job)
    | Answer(id: nat, texts: (string, string), at: string)  // the pending GET or reply arrives
    | Fail(id: nat)                    // the pending GET fails, or the reply is lost, or the swap never arrives
    | GiveUp(id: nat)                  // the swap is reported failed while it is still on its way
    | Run(id: nat)                     // the server runs the pending swap
    | RunLate(k: nat)                  // the server runs an abandoned swap
    | Create(owner: string, key: string, alias: string, text: string)
    | Revoke(owner: string, hashes: seq<string>, text: string)

  function Settle(op: Op, pc: Pc): Op { op.(pc := pc) }

  function Refuse(op: Op, r: Refusal): Op { op.(pc := Refused(r)) }

  function Success(op: Op, m: Move): Op { op.(pc := if op.job.Strip() then MovedBack else Moved(m)) }

  function BeginOp(job: Job): Op {
    match job
    case MoveJob(from, to, _, _) =>
      if from == "" || to == "" || from == to then Op(job, Refused(MoveFailed), 0) else Op(job, ReadSource(1), 0)
    case RestoreJob(_) => Op(job, BackSent, 1)
  }

  predicate HoldsSameKey(entries: seq<Value>, e: Value) {
    exists i :: 0 <= i < |entries| && SameKey(entries[i], e)
  }

  function CountSameKey(entries: seq<Value>, e: Value): nat {
    if entries == [] then 0
    else CountSameKey(entries[..|entries| - 1], e) + if SameKey(entries[|entries| - 1], e) then 1 else 0
  }

  /** Both stores have been read: refuse, or plan the swap and send it. The texts are the
      JSON the client writes; they may be any texts that read back as the two new lists. */
  function Plan(c: Codec, op: Op, attempt: nat, rawSource: Option<string>, rawTarget: Option<string>,
                texts: (string, string), at: string): Op
  {
    var job := op.job;
    var source, target := c.Entries(rawSource), c.Entries(rawTarget);
    if source == None || target == None then Refuse(op, MoveFailed) else
      match FindDeviceKey(c.sha, source.value, job.Lastkey())
      case Ambiguous => Refuse(op, AmbiguousKey)
      case NotIdentified => Refuse(op, NotIdentifiedKey)
      case Found(i, e) =>
        if !job.Strip() && IsOwnerMqttKey(e) then Refuse(op, OwnerMqttKey)
        else if HoldsSameKey(target.value, e) then Refuse(op, MoveFailed)
        else
          assert IsEntry(e) by { HitsAreHits(c.sha, source.value, job.Lastkey()); }
          var moved := MovedEntry(e, job.Source(), job.Target(), job.Udid(), at, job.Strip(), target.value);
          if c.parse(texts.0) == Some(RemoveAt(source.value, i)) &&
            c.parse(texts.1) == Some(target.value + [moved]) then
            var plan := Move(job.Source(), job.Target(), (Wire(rawSource), Wire(rawTarget)), texts, job.Lastkey(),
                             job.Udid(), at);
            Op(job, Sent(attempt, e, plan), op.sent + 1)
          else op
  }

  /** The swap's reply was lost: both stores have been re-read to decide. */
  function Decide(c: Codec, op: Op, e: Value, plan: Move, rawSource: Option<string>, rawTarget: Option<string>): Op {
    var source, target := c.Entries(rawSource), c.Entries(rawTarget);
    if source == None || target == None then Refuse(op, OutcomeUnknown) else
      var inSource, inTarget := CountSameKey(source.value, e), CountSameKey(target.value, e);
      if inSource == 0 && inTarget == 1 then Success(op, plan.(after := (Wire(rawSource), Wire(rawTarget))))
      else if inSource == 1 && inTarget == 0 then Refuse(op, MoveFailed)
      else Refuse(op, OutcomeInconsistent)
  }

  function OnAnswer(c: Codec, stores: Stores, op: Op, texts: (string, string), at: string): Op {
    var job := op.job;
    match op.pc
    case ReadSource(n) => Settle(op, ReadTarget(n, Raw(stores, job.Source())))
    case ReadTarget(n, raw) => Plan(c, op, n, raw, Raw(stores, job.Target()), texts, at)
    case Replied(n, e, plan, applied) =>
      if applied then Success(op, plan)
      else if n < MAX_ATTEMPTS then Settle(op, ReadSource(n + 1))
      else Refuse(op, MoveFailed)
    case CheckSource(e, plan) => Settle(op, CheckTarget(e, plan, Raw(stores, job.Source())))
    case CheckTarget(e, plan, raw) => Decide(c, op, e, plan, raw, Raw(stores, job.Target()))
    case BackReplied(applied) => Settle(op, if applied then Restored else BackReadSource)
    case BackReadSource => Settle(op, if job.RestoreJob? then BackReadTarget(Raw(stores, job.record.source)) else op.pc)
    case BackReadTarget(raw) =>
      if job.RestoreJob? then
        if Wire(raw) == job.record.before.0 && Wire(Raw(stores, job.record.target)) == job.record.before.1
        then Settle(op, Restored)
        else Settle(op, ReadSource(1))
      else op
    case _ => op
  }

  function OnFail(op: Op): Op {
    match op.pc
    case ReadSource(_) => Refuse(op, MoveFailed)
    case ReadTarget(_, _) => Refuse(op, MoveFailed)
    case Sent(_, e, plan) => Settle(op, CheckSource(e, plan))
    case Replied(_, e, plan, _) => Settle(op, CheckSource(e, plan))
    case CheckSource(_, _) => Refuse(op, OutcomeUnknown)
    case CheckTarget(_, _, _) => Refuse(op, OutcomeUnknown)
    case BackSent => Settle(op, BackReadSource)
    case BackReplied(_) => Settle(op, BackReadSource)
    case BackReadSource => Settle(op, ReadSource(1))
    case BackReadTarget(_) => Settle(op, ReadSource(1))
    case _ => op
  }

  /** The swap an operation has on its way to the server. */
  function Pending(op: Op): Option<Swap> {
    match op.pc
    case Sent(_, _, plan) => Some(Forth(plan))
    case BackSent => if op.job.RestoreJob? then Some(Back(op.job.record)) else None
    case _ => None
  }

  function OnRun(stores: Stores, op: Op): Op {
    match op.pc
    case Sent(n, e, plan) => Settle(op, Replied(n, e, plan, Matches(stores, Forth(plan))))
    case BackSent => if op.job.RestoreJob? then Settle(op, BackReplied(Matches(stores, Back(op.job.record)))) else op
    case _ => op
  }

  /** create(): the list with the new entry last, or None when it is refused. */
  function Created(sha: Sha, entries: seq<Value>, key: string, alias: string): Option<seq<Value>> {
    if exists i :: 0 <= i < |entries| &&
                   (SafeEqual(Text(entries[i], "key"), key) || SafeEqual(Text(entries[i], "alias"), alias))
    then None
    else Some(entries + [NewEntry(sha, key, alias)])
  }

  function NewEntry(sha: Sha, key: string, alias: string): Value {
    Obj(map["key" := Str(key), "hash" := Str(sha(key)), "alias" := Str(alias)])
  }

  /** revoke(): the entries whose hash is not listed. */
  function Kept(entries: seq<Value>, hashes: seq<string>): seq<Value> {
    if entries == [] then [] else
      var n := |entries| - 1;
      Kept(entries[..n], hashes) + if Listed(entries[n], hashes) then [] else [entries[n]]
  }

  function Removed(entries: seq<Value>, hashes: seq<string>): seq<Value> {
    if entries == [] then [] else
      var n := |entries| - 1;
      Removed(entries[..n], hashes) + if Listed(entries[n], hashes) then [entries[n]] else []
  }

  predicate Listed(e: Value, hashes: seq<string>) {
    e.Obj? && "hash" in e.fields && e.fields["hash"].Str? && e.fields["hash"].text in hashes
  }

  /** One step. An event that is not possible in w leaves it as it is, so every sequence of
      events is a run. */
  function Next(c: Codec, w: World, e: Event): World {
    match e
    case Begin(id, job) =>
      if id in w.ops || (job.RestoreJob? && !Answered(w, job.record)) then w
      else w.(ops := w.ops[id := BeginOp(job)])
    case Answer(id, texts, at) =>
      if id !in w.ops then w else w.(ops := w.ops[id := OnAnswer(c, w.stores, w.ops[id], texts, at)])
    case Fail(id) =>
      if id !in w.ops then w else w.(ops := w.ops[id := OnFail(w.ops[id])])
    case GiveUp(id) =>
      if id !in w.ops || Pending(w.ops[id]) == None then w
      else w.(ops := w.ops[id := OnFail(w.ops[id])], orphans := w.orphans + [Orphan(id, Pending(w.ops[id]).value)])
    case Run(id) =>
      if id !in w.ops || Pending(w.ops[id]) == None then w
      else w.(ops := w.ops[id := OnRun(w.stores, w.ops[id])], stores := Swapped(w.stores, Pending(w.ops[id]).value))
    case RunLate(k) =>
      if k >= |w.orphans| then w
      else w.(stores := Swapped(w.stores, w.orphans[k].swap), orphans := w.orphans[..k] + w.orphans[k + 1..])
    case Create(owner, key, alias, text) =>
      var entries := c.Entries(Raw(w.stores, owner));
      if entries == None || Created(c.sha, entries.value, key, alias) == None ||
         c.parse(text) != Created(c.sha, entries.value, key, alias) then w
      else w.(stores := w.stores[owner := text], created := w.created + multiset{Core(NewEntry(c.sha, key, alias))})
    case Revoke(owner, hashes, text) =>
      var entries := c.Entries(Raw(w.stores, owner));
      if owner !in w.stores || entries == None || Null in entries.value ||
         c.parse(text) != Some(Kept(entries.value, hashes)) then w
      else w.(stores := w.stores[owner := text], revoked := w.revoked + Cores(Removed(entries.value, hashes)))
  }

  /** A record some move has answered with. */
  predicate Answered(w: World, m: Move) {
    exists id :: id in w.ops && w.ops[id].pc == Moved(m)
  }

  function After(c: Codec, w: World, events: seq<Event>): World
    decreases |events|
  {
    if events == [] then w else After(c, Next(c, w, events[0]), events[1..])
  }

  function Start(stores: Stores): World { World(stores, map[], [], multiset{}, multiset{}) }
}
