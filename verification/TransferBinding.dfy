/**
 * The transfer binding a moved entry carries, and the two checks that read it later: by the
 * presented key (transferRedirect) and by the device's lastkey (checkTransferBinding).
 */
module TransferBinding {
  import opened KeyEntries
  import opened KeyExamples
  import opened KeyRefusals

  // ---------------------------------------------------------------- the from list along a chain

  ghost predicate NoDuplicates(s: seq<string>) {
    forall i, j :: 0 <= i < j < |s| ==> s[i] != s[j]
  }

  lemma {:induction false} KeepOwnersMembers(previous: seq<Value>, newOwner: string, kept: seq<string>)
    requires NoDuplicates(kept) && newOwner !in kept
    ensures NoDuplicates(KeepOwners(previous, newOwner, kept))
    ensures forall o :: o in KeepOwners(previous, newOwner, kept)
                   <==> o in kept || (Str(o) in previous && o != "" && o != newOwner)
    decreases |previous|
  {
    if previous != [] {
      var o := if previous[0].Str? then previous[0].text else "";
      var next := if o != "" && o != newOwner && o !in kept then kept + [o] else kept;
      KeepOwnersMembers(previous[1..], newOwner, next);
      assert previous == [previous[0]] + previous[1..];
    }
  }

  /** entries[k] is the entry as it stands after the k-th transfer of udid along owners. */
  ghost predicate Chain(entries: seq<Value>, owners: seq<string>, udid: string) {
    && |entries| == |owners| > 0
    && (forall k :: 0 <= k < |entries| ==> IsEntry(entries[k]) && owners[k] != "")
    && (forall k :: 0 < k < |owners| ==> owners[k - 1] != owners[k])
    && (forall k :: 0 < k < |entries| ==> Hop(entries[k - 1], entries[k], owners[k - 1], owners[k], udid))
  }

  ghost predicate Hop(e: Value, e': Value, source: string, target: string, udid: string) {
    IsEntry(e) && exists at, others :: e' == MovedEntry(e, source, target, udid, at, false, others)
  }

  /** The entry's binding names udid and lists exactly these owners. */
  ghost predicate BoundTo(e: Value, udid: string, from: seq<string>) {
    && e.Obj? && "transfer" in e.fields && e.fields["transfer"].Obj?
    && var b := e.fields["transfer"].fields;
       "udid" in b && b["udid"] == Str(udid) && "from" in b && b["from"] == List(Texts(from))
  }

  /** The owners a moved entry lists: those of its earlier binding and its source, less its target. */
  lemma HopBinds(e: Value, e': Value, source: string, target: string, udid: string, earlier: seq<string>)
    returns (from: seq<string>)
    requires Hop(e, e', source, target, udid) && source != "" && source != target
    requires PreviousOwners(e, source, udid) == Texts(earlier) + [Str(source)] && "" !in earlier
    ensures BoundTo(e', udid, from) && NoDuplicates(from)
    ensures forall o :: o in from <==> (o in earlier || o == source) && o != target
    ensures forall s :: PreviousOwners(e', s, udid) == Texts(from) + [Str(s)]
  {
    var at, others :| e' == MovedEntry(e, source, target, udid, at, false, others);
    var previous := PreviousOwners(e, source, udid);
    from := KeepOwners(previous, target, []);
    KeepOwnersMembers(previous, target, []);
    assert e'.fields["transfer"] == Binding(udid, from, at);
    assert forall o :: Str(o) in Texts(earlier) <==> o in earlier by {
      assert forall i :: 0 <= i < |earlier| ==> Texts(earlier)[i] == Str(earlier[i]);
    }
  }

  /** Main result: along any chain of transfers of one device, owners repeating or not, the
      binding lists every former owner once and never the current one. */
  lemma {:induction false} ChainBinds(entries: seq<Value>, owners: seq<string>, udid: string)
    returns (from: seq<string>)
    requires Chain(entries, owners, udid) && |owners| > 1
    requires PreviousOwners(entries[0], owners[0], udid) == [Str(owners[0])]
    ensures var n := |owners| - 1;
      && BoundTo(entries[n], udid, from) && NoDuplicates(from)
      && (forall o :: o in from <==> o in owners[..n] && o != owners[n])
      && (forall s :: PreviousOwners(entries[n], s, udid) == Texts(from) + [Str(s)])
  {
    var n := |owners| - 1;
    var earlier := [];
    if n > 1 {
      earlier := ChainBinds(entries[..n], owners[..n], udid);
      assert owners[..n][..n - 1] == owners[..n - 1];
    } else {
      assert Texts(earlier) == [];
    }
    assert Hop(entries[n - 1], entries[n], owners[n - 1], owners[n], udid);
    from := HopBinds(entries[n - 1], entries[n], owners[n - 1], owners[n], udid, earlier);
    assert owners[..n] == owners[..n - 1] + [owners[n - 1]];
  }

  // ---------------------------------------------------------------- reading the binding

  predicate Presents(e: Value, apikey: string) {
    IsEntry(e) && (SafeEqual(Text(e, "key"), apikey) || SafeEqual(Text(e, "hash"), apikey))
  }

  function Presenting(entries: seq<Value>, apikey: string): seq<Value> {
    if entries == [] then [] else
      var n := |entries| - 1;
      Presenting(entries[..n], apikey) + if Presents(entries[n], apikey) then [entries[n]] else []
  }

  predicate Lists(e: Value, udid: string, owner: string) {
    && e.Obj? && "transfer" in e.fields && e.fields["transfer"].Obj?
    && var b := e.fields["transfer"].fields;
       "udid" in b && b["udid"] == Str(udid) && "from" in b && b["from"].List? && Str(owner) in b["from"].items
  }

  function FindTransferBinding(entries: seq<Value>, apikey: string, udid: string, presented: string): bool {
    && apikey != "" && udid != "" && presented != ""
    && var matching := Presenting(entries, apikey);
       |matching| == 1 && Lists(matching[0], udid, presented)
  }

  /** checkTransferBinding on a readable store: identify the entry by lastkey, then look it up
      by its hash (its key when it has none). */
  function CheckTransferBinding(sha: Sha, entries: seq<Value>, udid: string, lastkey: string, presented: string): bool {
    match FindDeviceKey(sha, entries, lastkey)
    case Found(_, e) =>
      var identity := if Text(e, "hash") != "" then Text(e, "hash") else Text(e, "key");
      FindTransferBinding(entries, identity, udid, presented)
    case _ => false
  }

  predicate OnlyPresents(entries: seq<Value>, apikey: string, i: nat)
    requires i < |entries|
  {
    Presents(entries[i], apikey) && forall j :: 0 <= j < |entries| && j != i ==> !Presents(entries[j], apikey)
  }

  lemma {:induction false} NonePresents(entries: seq<Value>, apikey: string)
    requires forall j :: 0 <= j < |entries| ==> !Presents(entries[j], apikey)
    ensures Presenting(entries, apikey) == []
  {
    if entries != [] { NonePresents(entries[..|entries| - 1], apikey); }
  }

  lemma {:induction false} OnePresents(entries: seq<Value>, apikey: string, i: nat)
    requires i < |entries| && OnlyPresents(entries, apikey, i)
    ensures Presenting(entries, apikey) == [entries[i]]
  {
    var n := |entries| - 1;
    if i == n {
      NonePresents(entries[..n], apikey);
    } else {
      OnePresents(entries[..n], apikey, i);
    }
  }

  lemma {:induction false} PresentingNone(entries: seq<Value>, apikey: string)
    requires Presenting(entries, apikey) == []
    ensures forall j :: 0 <= j < |entries| ==> !Presents(entries[j], apikey)
  {
    if entries != [] {
      PresentingNone(entries[..|entries| - 1], apikey);
    }
  }

  lemma {:induction false} PresentingOne(entries: seq<Value>, apikey: string) returns (i: nat)
    requires |Presenting(entries, apikey)| == 1
    ensures i < |entries| && OnlyPresents(entries, apikey, i)
  {
    var n := |entries| - 1;
    if Presents(entries[n], apikey) {
      i := n;
      PresentingNone(entries[..n], apikey);
    } else {
      i := PresentingOne(entries[..n], apikey);
      assert forall j :: 0 <= j < n ==> entries[..n][j] == entries[j];
    }
  }

  /** The redirect accepts exactly the former owners of the device's one entry. */
  lemma FormerOwnersAccepted(entries: seq<Value>, i: nat, apikey: string, udid: string,
                             chain: seq<Value>, owners: seq<string>, presented: string)
    requires Chain(chain, owners, udid) && |owners| > 1
    requires PreviousOwners(chain[0], owners[0], udid) == [Str(owners[0])]
    requires i < |entries| && entries[i] == chain[|chain| - 1]
    requires apikey != "" && udid != "" && OnlyPresents(entries, apikey, i)
    ensures FindTransferBinding(entries, apikey, udid, presented)
       <==> presented in owners[..|owners| - 1] && presented != owners[|owners| - 1]
  {
    OnePresents(entries, apikey, i);
    var from := ChainBinds(chain, owners, udid);
    assert Str(presented) in Texts(from) <==> presented in from by {
      assert forall k :: 0 <= k < |from| ==> Texts(from)[k] == Str(from[k]);
    }
  }

  /** The entry's key or hash is this text. */
  predicate IsKeyOrHash(e: Value, apikey: string) { Says(e, "key", apikey) || Says(e, "hash", apikey) }

  /** The entry was transferred for this device, and this owner had it before. */
  predicate WasOwnedBy(e: Value, udid: string, owner: string) {
    && e.Obj? && "transfer" in e.fields && e.fields["transfer"].Obj?
    && var b := e.fields["transfer"].fields;
       && "udid" in b && b["udid"] == Str(udid) && "from" in b && b["from"].List?
       && exists k :: 0 <= k < |b["from"].items| && b["from"].items[k] == Str(owner)
  }

  ghost predicate OnlyKeyOrHash(entries: seq<Value>, apikey: string, i: int) {
    0 <= i < |entries| && forall j :: 0 <= j < |entries| ==> (IsKeyOrHash(entries[j], apikey) <==> j == i)
  }

  lemma PresentsIff(e: Value, apikey: string)
    ensures Presents(e, apikey) <==> IsKeyOrHash(e, apikey)
  {
  }

  /** Main result on the redirect: it accepts exactly when all three texts are given, one entry alone has
      the presented text as its key or hash, and that entry lists the owner for the device. */
  lemma RedirectIff(entries: seq<Value>, apikey: string, udid: string, presented: string)
    ensures FindTransferBinding(entries, apikey, udid, presented) <==>
      && udid != "" && presented != ""
      && exists i :: OnlyKeyOrHash(entries, apikey, i) && WasOwnedBy(entries[i], udid, presented)
  {
    forall j | 0 <= j < |entries| ensures Presents(entries[j], apikey) <==> IsKeyOrHash(entries[j], apikey) {
      PresentsIff(entries[j], apikey);
    }
    if |Presenting(entries, apikey)| == 1 {
      var i := PresentingOne(entries, apikey);
      OnePresents(entries, apikey, i);
      assert OnlyKeyOrHash(entries, apikey, i);
    }
    if i :| OnlyKeyOrHash(entries, apikey, i) && WasOwnedBy(entries[i], udid, presented) {
      OnePresents(entries, apikey, i);
    }
  }

  /** And the check by lastkey accepts exactly when lastkey names one entry alone, and the redirect
      accepts that entry's hash, or its key when it has no hash. */
  lemma CheckIff(sha: Sha, entries: seq<Value>, udid: string, lastkey: string, presented: string)
    ensures CheckTransferBinding(sha, entries, udid, lastkey, presented) <==>
      exists i, identity :: NamesOnly(sha, entries, lastkey, i) && Identity(entries[i], identity)
        && FindTransferBinding(entries, identity, udid, presented)
  {
    var f := FindDeviceKey(sha, entries, lastkey);
    if f.Found? {
      OneFound(sha, entries, lastkey, f.index);
      var identity := if Text(f.entry, "hash") != "" then Text(f.entry, "hash") else Text(f.entry, "key");
      assert identity != "" ==> Identity(f.entry, identity);
    }
    if i, identity :| NamesOnly(sha, entries, lastkey, i) && Identity(entries[i], identity)
                      && FindTransferBinding(entries, identity, udid, presented) {
      OneFound(sha, entries, lastkey, i);
    }
  }

  /** The hash, or the key of an entry without one. */
  ghost predicate Identity(e: Value, identity: string) {
    Says(e, "hash", identity) || (Says(e, "key", identity) && !exists h :: Says(e, "hash", h))
  }

  // ---------------------------------------------------------------- the two checks agree

  /** sha256 as the code relies on it: never empty, never colliding. */
  ghost predicate CollisionFree(sha: Sha) {
    (forall x :: sha(x) != "") && forall x, y :: sha(x) == sha(y) ==> x == y
  }

  /** For a well-formed entry, "lastkey is its candidate" means "the device presented its key or hash". */
  lemma HitIffPresents(sha: Sha, e: Value, apikey: string)
    requires CollisionFree(sha) && WellFormed(sha, e) && apikey != ""
    ensures Hit(sha, e, sha(apikey)) <==> Presents(e, apikey)
  {
    var key, hash := Text(e, "key"), Text(e, "hash");
    assert forall v :: v in Candidates(sha, e) <==> v == hash || v == sha(hash);
  }

  /** No other entry has this entry's hash as its key. */
  predicate HashIsNoKey(entries: seq<Value>, apikey: string) {
    forall i, j :: 0 <= i < |entries| && 0 <= j < |entries| && i != j && Presents(entries[i], apikey) ==>
      Text(entries[j], "key") != Text(entries[i], "hash")
  }

  lemma SameHashSameKey(sha: Sha, a: Value, b: Value)
    requires CollisionFree(sha) && WellFormed(sha, a) && WellFormed(sha, b)
    ensures Text(a, "hash") == Text(b, "hash") <==> Text(a, "key") == Text(b, "key")
  {
  }

  lemma IdentityPresents(sha: Sha, entries: seq<Value>, apikey: string, i: nat)
    requires CollisionFree(sha) && apikey != ""
    requires forall k :: 0 <= k < |entries| ==> WellFormed(sha, entries[k])
    requires i < |entries| && OnlyPresents(entries, apikey, i)
    ensures OnlyPresents(entries, Text(entries[i], "hash"), i) <==> HashIsNoKey(entries, apikey)
  {
    var hash := Text(entries[i], "hash");
    forall j | 0 <= j < |entries| && j != i
      ensures Presents(entries[j], hash) <==> Text(entries[j], "key") == hash
    {
      SameHashSameKey(sha, entries[i], entries[j]);
    }
  }

  /** Looking the identified entry up by its hash finds it unless the hash is another's key. */
  lemma FoundChecksAgree(sha: Sha, entries: seq<Value>, apikey: string, udid: string, presented: string, i: nat)
    requires CollisionFree(sha) && apikey != ""
    requires forall k :: 0 <= k < |entries| ==> WellFormed(sha, entries[k])
    requires i < |entries| && OnlyPresents(entries, apikey, i)
    ensures FindTransferBinding(entries, Text(entries[i], "hash"), udid, presented)
       <==> FindTransferBinding(entries, apikey, udid, presented) && HashIsNoKey(entries, apikey)
  {
    var hash := Text(entries[i], "hash");
    assert WellFormed(sha, entries[i]);
    OnePresents(entries, apikey, i);
    IdentityPresents(sha, entries, apikey, i);
    if OnlyPresents(entries, hash, i) {
      OnePresents(entries, hash, i);
    } else if |Presenting(entries, hash)| == 1 {
      var k := PresentingOne(entries, hash);
    }
  }

  /**
   * Main result: on a well-formed store the two checks agree on every key a device can present,
   * udid and owner, except when the entry's hash is also another entry's key: then the check by
   * lastkey refuses.
   */
  lemma ChecksAgreeIff(sha: Sha, entries: seq<Value>, apikey: string, udid: string, presented: string)
    requires CollisionFree(sha) && apikey != ""
    requires forall k :: 0 <= k < |entries| ==> WellFormed(sha, entries[k])
    ensures CheckTransferBinding(sha, entries, udid, sha(apikey), presented)
       <==> FindTransferBinding(entries, apikey, udid, presented) && HashIsNoKey(entries, apikey)
  {
    forall k | 0 <= k < |entries| ensures Hit(sha, entries[k], sha(apikey)) <==> Presents(entries[k], apikey) {
      HitIffPresents(sha, entries[k], apikey);
    }
    var f := FindDeviceKey(sha, entries, sha(apikey));
    if f.Found? {
      FoundIffOnlyHit(sha, entries, sha(apikey), f.index);
      FoundChecksAgree(sha, entries, apikey, udid, presented, f.index);
    } else if |Presenting(entries, apikey)| == 1 {
      var i := PresentingOne(entries, apikey);
      FoundIffOnlyHit(sha, entries, sha(apikey), i);
    }
  }

  // ---------------------------------------------------------------- where they disagree

  lemma HashIsCollisionFree()
    ensures CollisionFree(Hash)
  {
    forall x, y | Hash(x) == Hash(y) ensures x == y {
      assert Hash(x)[1..] == x && Hash(y)[1..] == y;
    }
  }

  /** An entry of key k, bound to its former owner. */
  function Bound(): Value {
    Obj(map["key" := Str("k"), "hash" := Str(Hash("k")), "transfer" := Binding("u", ["A"], "t")])
  }

  /** An entry whose key is the hash of the other. */
  function KeyedByHash(): Value { Obj(map["key" := Str(Hash("k")), "hash" := Str(Hash(Hash("k")))]) }

  lemma WitnessTexts()
    ensures var e, o := Bound(), KeyedByHash();
      && Text(e, "key") == "k" && Text(e, "hash") == Hash("k") && Text(o, "key") == Hash("k") &&
        Text(o, "hash") == Hash(Hash("k"))
      && Hash("k") != "k" && Hash(Hash("k")) != "k" && Hash(Hash("k")) != Hash("k")
  {
    assert |Hash("k")| == 2 && |Hash(Hash("k"))| == 3;
  }

  /** Two well-formed entries, one key being the other's hash: the device presents its key, the
      check by the presented key accepts its former owner, and the check by lastkey refuses it. */
  lemma ChecksCanDisagree()
    ensures CollisionFree(Hash) && WellFormed(Hash, Bound()) && WellFormed(Hash, KeyedByHash())
    ensures FindTransferBinding([Bound(), KeyedByHash()], "k", "u", "A")
    ensures !CheckTransferBinding(Hash, [Bound(), KeyedByHash()], "u", Hash("k"), "A")
  {
    var entries := [Bound(), KeyedByHash()];
    HashIsCollisionFree();
    WitnessTexts();
    assert OnlyPresents(entries, "k", 0);
    OnePresents(entries, "k", 0);
    assert Lists(entries[0], "u", "A") by { assert Texts(["A"])[0] == Str("A"); }
    assert Presents(entries[0], "k") && Text(entries[1], "key") == Text(entries[0], "hash");
    ChecksAgreeIff(Hash, entries, "k", "u", "A");
  }
}
