/**
 * The API key entries an owner's store holds, and the rules that identify one of
 * them: which entry a device's lastkey names, and what an entry becomes when it moves.
 */
module KeyEntries {
  import JsText
  import opened Wrappers

  /** A parsed JSON value. An object's property order is not modelled. */
  datatype Value =
    | Null
    | Scalar(token: string)                // true, false and numbers
    | Str(text: string)
    | List(items: seq<Value>)
    | Obj(fields: map<string, Value>)

  type Sha = string -> string

  const MQTT_ALIAS := "Default MQTT API Key"

  predicate IsEntry(v: Value) { v.Obj? }

  /** The named field as text; "" when it is absent or not a string. SafeEqual and the
      source's nonEmptyString treat the three cases alike. */
  function Text(v: Value, field: string): string {
    if v.Obj? && field in v.fields && v.fields[field].Str? then v.fields[field].text else ""
  }

  /** The entry's field is this non-empty text. */
  predicate Says(e: Value, field: string, s: string) {
    e.Obj? && field in e.fields && e.fields[field] == Str(s) && s != ""
  }

  predicate SafeEqual(a: string, b: string) { a != "" && a == b }

  /** Two entries are the same key when their hashes or their keys agree. */
  predicate SameKey(a: Value, b: Value) {
    && IsEntry(a)
    && IsEntry(b)
    && (SafeEqual(Text(a, "hash"), Text(b, "hash")) || SafeEqual(Text(a, "key"), Text(b, "key")))
  }

  // ---------------------------------------------------------------- identification

  function Add(out: seq<string>, value: string): seq<string> {
    if value == "" || value in out then out else out + [value]
  }

  /** The values a device's lastkey can take for this entry. */
  function Candidates(sha: Sha, e: Value): seq<string> {
    if !IsEntry(e) then [] else
      var key, hash := Text(e, "key"), Text(e, "hash");
      var out := if key == "" then [] else Add([], sha(key));
      var out := Add(out, hash);
      if hash == "" then out else Add(out, sha(hash))
  }

  predicate Hit(sha: Sha, e: Value, lastkey: string) {
    lastkey != "" && lastkey in Candidates(sha, e)
  }

  /** The positions at which a test holds, in order. */
  function Positions(test: Value -> bool, entries: seq<Value>): seq<nat> {
    if entries == [] then [] else
      var n := |entries| - 1;
      Positions(test, entries[..n]) + if test(entries[n]) then [n] else []
  }

  function Test(sha: Sha, lastkey: string): (test: Value -> bool)
    ensures forall e :: test(e) == Hit(sha, e, lastkey)
  {
    e => Hit(sha, e, lastkey)
  }

  /** The positions of the entries that lastkey can stand for, in order. */
  function Hits(sha: Sha, entries: seq<Value>, lastkey: string): seq<nat> {
    Positions(Test(sha, lastkey), entries)
  }

  datatype Found = NotIdentified | Ambiguous | Found(index: nat, entry: Value)

  lemma {:induction false} PositionsAscend(test: Value -> bool, entries: seq<Value>)
    ensures forall k :: 0 <= k < |Positions(test, entries)| ==>
              Positions(test, entries)[k] < |entries| && test(entries[Positions(test, entries)[k]])
    ensures forall j, k :: 0 <= j < k < |Positions(test, entries)| ==>
      Positions(test, entries)[j] < Positions(test, entries)[k]
  {
    if entries != [] {
      PositionsAscend(test, entries[..|entries| - 1]);
    }
  }

  lemma {:induction false} PositionIsFound(test: Value -> bool, entries: seq<Value>, i: nat)
    requires i < |entries| && test(entries[i])
    ensures i in Positions(test, entries)
  {
    var n := |entries| - 1;
    if i < n {
      PositionIsFound(test, entries[..n], i);
    }
  }

  lemma HitsAreHits(sha: Sha, entries: seq<Value>, lastkey: string)
    ensures forall k :: 0 <= k < |Hits(sha, entries, lastkey)| ==>
              && Hits(sha, entries, lastkey)[k] < |entries|
              && Hit(sha, entries[Hits(sha, entries, lastkey)[k]], lastkey)
    ensures forall i :: 0 <= i < |entries| && Hit(sha, entries[i], lastkey) ==> i in Hits(sha, entries, lastkey)
    ensures forall j, k :: 0 <= j < k < |Hits(sha, entries, lastkey)| ==>
              Hits(sha, entries, lastkey)[j] < Hits(sha, entries, lastkey)[k]
  {
    PositionsAscend(Test(sha, lastkey), entries);
    forall i | 0 <= i < |entries| && Hit(sha, entries[i], lastkey) ensures i in Hits(sha, entries, lastkey) {
      PositionIsFound(Test(sha, lastkey), entries, i);
    }
  }

  function FindDeviceKey(sha: Sha, entries: seq<Value>, lastkey: string): (r: Found)
    ensures r.Found? ==> r.index < |entries| && r.entry == entries[r.index]
  {
    var hits := Hits(sha, entries, lastkey);
    HitsAreHits(sha, entries, lastkey);
    if |hits| == 0 then NotIdentified
    else if |hits| > 1 then Ambiguous
    else Found(hits[0], entries[hits[0]])
  }

  predicate OnlyHit(sha: Sha, entries: seq<Value>, lastkey: string, i: nat)
    requires i < |entries|
  {
    Hit(sha, entries[i], lastkey) && forall j :: 0 <= j < |entries| && j != i ==> !Hit(sha, entries[j], lastkey)
  }

  /** lastkey identifies an entry exactly when it is a candidate of that entry and of no other. */
  lemma FoundIffOnlyHit(sha: Sha, entries: seq<Value>, lastkey: string, i: nat)
    requires i < |entries|
    ensures FindDeviceKey(sha, entries, lastkey) == Found(i, entries[i]) <==> OnlyHit(sha, entries, lastkey, i)
  {
    var hits := Hits(sha, entries, lastkey);
    HitsAreHits(sha, entries, lastkey);
    assert |hits| > 1 ==> hits[0] < hits[1];
    if OnlyHit(sha, entries, lastkey, i) {
      assert i in hits;
      assert forall k :: 0 <= k < |hits| ==> hits[k] == i;
      assert hits == [i];
    } else if Hit(sha, entries[i], lastkey) {
      var j :| 0 <= j < |entries| && j != i && Hit(sha, entries[j], lastkey);
      assert j in hits;
    } else {
      assert forall k :: 0 <= k < |hits| ==> hits[k] != i;
    }
  }

  lemma {:induction false} NoPositions(test: Value -> bool, entries: seq<Value>)
    requires forall e :: !test(e)
    ensures Positions(test, entries) == []
  {
    if entries != [] {
      NoPositions(test, entries[..|entries| - 1]);
    }
  }

  lemma NoHits(sha: Sha, entries: seq<Value>)
    ensures Hits(sha, entries, "") == []
  {
    NoPositions(Test(sha, ""), entries);
  }

  /** The source's scan: count the matches and remember the first. */
  method ScanForDeviceKey(sha: Sha, entries: seq<Value>, lastkey: string) returns (r: Found)
    ensures r == FindDeviceKey(sha, entries, lastkey)
  {
    if lastkey == "" {
      NoHits(sha, entries);
      return NotIdentified;
    }
    var first: Option<nat> := None;
    var matches := 0;
    for index := 0 to |entries|
      invariant matches == |Hits(sha, entries[..index], lastkey)|
      invariant first == if matches == 0 then None else Some(Hits(sha, entries[..index], lastkey)[0])
    {
      assert entries[..index + 1][..index] == entries[..index];
      if Hit(sha, entries[index], lastkey) {
        matches := matches + 1;
        if first == None {
          first := Some(index);
        }
      }
    }
    assert entries[..|entries|] == entries;
    HitsAreHits(sha, entries, lastkey);
    if matches == 0 {
      return NotIdentified;
    }
    if matches > 1 {
      return Ambiguous;
    }
    return Found(first.value, entries[first.value]);
  }

  /** Entries as create() writes them: a key and the hash of that key. */
  predicate WellFormed(sha: Sha, e: Value) {
    IsEntry(e) && Text(e, "key") != "" && Text(e, "hash") != "" && Text(e, "hash") == sha(Text(e, "key"))
  }

  /** In a well-formed store the identified entry is the only holder of its key and hash. */
  lemma FoundHoldsKeyAlone(sha: Sha, entries: seq<Value>, lastkey: string, j: nat)
    requires forall i :: 0 <= i < |entries| ==> WellFormed(sha, entries[i])
    requires FindDeviceKey(sha, entries, lastkey).Found?
    requires j < |entries|
    ensures SameKey(entries[j], FindDeviceKey(sha, entries, lastkey).entry)
       <==> j == FindDeviceKey(sha, entries, lastkey).index
  {
    var f := FindDeviceKey(sha, entries, lastkey);
    FoundIffOnlyHit(sha, entries, lastkey, f.index);
    if SameKey(entries[j], f.entry) {
      assert Text(entries[j], "hash") == Text(f.entry, "hash");
    }
  }

  // ---------------------------------------------------------------- what a move does to an entry

  predicate IsOwnerMqttKey(e: Value) {
    JsText.Contains(Text(e, "alias"), MQTT_ALIAS)
  }

  /** The owners the source's loop keeps: non-empty, not the new owner, no repeats. */
  function KeepOwners(previous: seq<Value>, newOwner: string, kept: seq<string>): seq<string>
    decreases |previous|
  {
    if previous == [] then kept else
      var o := if previous[0].Str? then previous[0].text else "";
      var next := if o != "" && o != newOwner && o !in kept then kept + [o] else kept;
      KeepOwners(previous[1..], newOwner, next)
  }

  /** The `previous` list a move starts from: the earlier binding of the same device, then the source. */
  function PreviousOwners(e: Value, source: string, udid: string): seq<Value> {
    if e.Obj? && "transfer" in e.fields then
      var binding := e.fields["transfer"];
      if binding.Obj? && "udid" in binding.fields && binding.fields["udid"] == Str(udid) &&
         "from" in binding.fields && binding.fields["from"].List?
      then binding.fields["from"].items + [Str(source)]
      else [Str(source)]
    else [Str(source)]
  }

  function Texts(owners: seq<string>): seq<Value> {
    seq(|owners|, i requires 0 <= i < |owners| => Str(owners[i]))
  }

  function Binding(udid: string, from: seq<string>, at: string): Value {
    Obj(map["udid" := Str(udid), "from" := List(Texts(from)), "at" := Str(at)])
  }

  predicate AliasTaken(entries: seq<Value>, alias: Value) {
    exists i :: 0 <= i < |entries| && IsEntry(entries[i]) && "alias" in entries[i].fields &&
      entries[i].fields["alias"] == alias
  }

  /** The entry as the target store receives it. */
  function MovedEntry(e: Value, source: string, target: string, udid: string, at: string, strip: bool,
                      targetEntries: seq<Value>): (r: Value)
    requires IsEntry(e)
    ensures IsEntry(r)
  {
    var fields :=
      if strip then e.fields - {"transfer"}
      else e.fields["transfer" := Binding(udid, KeepOwners(PreviousOwners(e, source, udid), target, []), at)];
    if "alias" in fields && fields["alias"].Str? && AliasTaken(targetEntries, fields["alias"]) then
      var prefix := if |udid| <= 8 then udid else udid[..8];
      Obj(fields["alias" := Str(fields["alias"].text + " (transferred " + prefix + ")")])
    else Obj(fields)
  }

  function RemoveAt(entries: seq<Value>, i: nat): seq<Value>
    requires i < |entries|
  {
    entries[..i] + entries[i + 1..]
  }

  // ---------------------------------------------------------------- what must be conserved

  /** Everything of an entry that no transfer may touch: all fields but alias and transfer. */
  function Core(v: Value): Value {
    if v.Obj? then Obj(v.fields - {"alias", "transfer"}) else v
  }

  function CoreSeq(entries: seq<Value>): seq<Value> {
    seq(|entries|, i requires 0 <= i < |entries| => Core(entries[i]))
  }

  function Cores(entries: seq<Value>): multiset<Value> {
    multiset(CoreSeq(entries))
  }

  lemma CoresConcat(a: seq<Value>, b: seq<Value>)
    ensures Cores(a + b) == Cores(a) + Cores(b)
  {
    assert CoreSeq(a + b) == CoreSeq(a) + CoreSeq(b);
  }

  lemma CoresRemoveAt(entries: seq<Value>, i: nat)
    requires i < |entries|
    ensures Cores(entries) == Cores(RemoveAt(entries, i)) + multiset{Core(entries[i])}
  {
    assert CoreSeq(entries) == CoreSeq(entries[..i]) + [Core(entries[i])] + CoreSeq(entries[i + 1..]);
    CoresConcat(entries[..i], entries[i + 1..]);
  }

  /** A move changes an entry in its alias and its transfer binding only. */
  lemma MovedKeepsCore(e: Value, source: string, target: string, udid: string, at: string, strip: bool,
                       targetEntries: seq<Value>)
    requires IsEntry(e)
    ensures Core(MovedEntry(e, source, target, udid, at, strip, targetEntries)) == Core(e)
    ensures forall f ::
      Text(MovedEntry(e, source, target, udid, at, strip, targetEntries), f) == Text(e, f) || f in {"alias", "transfer"}
    ensures strip ==> "transfer" !in MovedEntry(e, source, target, udid, at, strip, targetEntries).fields
  {
    var r := MovedEntry(e, source, target, udid, at, strip, targetEntries);
    assert r.fields - {"alias", "transfer"} == e.fields - {"alias", "transfer"};
    forall f | f !in {"alias", "transfer"} ensures Text(r, f) == Text(e, f) {
      assert f in r.fields <==> f in r.fields - {"alias", "transfer"};
    }
  }

  /** A moved entry keeps its alias exactly when no entry of the target has it. */
  lemma MovedAliasKeptIff(e: Value, source: string, target: string, udid: string, at: string, strip: bool,
                          targetEntries: seq<Value>)
    requires IsEntry(e) && "alias" in e.fields && e.fields["alias"].Str?
    ensures Text(MovedEntry(e, source, target, udid, at, strip, targetEntries), "alias") == Text(e, "alias")
       <==> !AliasTaken(targetEntries, e.fields["alias"])
    ensures Text(e, "alias") <= Text(MovedEntry(e, source, target, udid, at, strip, targetEntries), "alias")
  {
    var prefix := if |udid| <= 8 then udid else udid[..8];
    var alias := Text(e, "alias");
    assert |alias + " (transferred " + prefix + ")"| > |alias|;
  }

  /** Taking one entry out of a list and appending its moved form to another conserves the cores of both. */
  lemma MoveConservesCores(source: seq<Value>, target: seq<Value>, i: nat, moved: Value)
    requires i < |source| && Core(moved) == Core(source[i])
    ensures Cores(RemoveAt(source, i)) + Cores(target + [moved]) == Cores(source) + Cores(target)
  {
    CoresRemoveAt(source, i);
    CoresConcat(target, [moved]);
    assert CoreSeq([moved]) == [Core(moved)];
  }
}
