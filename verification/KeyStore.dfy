/** The store service itself: the swap script, and create and revoke as one step each. */
module KeyStore {
  import opened Wrappers
  import opened KeyEntries
  import opened KeyTransfers

  /** No two entries share a key, or an alias. */
  predicate Distinct(entries: seq<Value>, field: string) {
    forall i, j :: 0 <= i < j < |entries| ==> !SafeEqual(Text(entries[i], field), Text(entries[j], field))
  }

  /** create() keeps keys and aliases distinct, and refuses exactly when it could not. */
  lemma CreateKeepsDistinct(sha: Sha, entries: seq<Value>, key: string, alias: string)
    requires Distinct(entries, "key") && Distinct(entries, "alias")
    ensures var all := entries + [NewEntry(sha, key, alias)];
      && (Created(sha, entries, key, alias) == Some(all) <==> Distinct(all, "key") && Distinct(all, "alias"))
      && (Created(sha, entries, key, alias) == None <==> !(Distinct(all, "key") && Distinct(all, "alias")))
  {
    var all, n := entries + [NewEntry(sha, key, alias)], |entries|;
    assert Text(all[n], "key") == key && Text(all[n], "alias") == alias;
    assert forall i :: 0 <= i < n ==> all[i] == entries[i];
    forall i | 0 <= i < n
      ensures SafeEqual(Text(entries[i], "key"), key) ==> !Distinct(all, "key")
      ensures SafeEqual(Text(entries[i], "alias"), alias) ==> !Distinct(all, "alias")
    {
      assert SafeEqual(Text(all[i], "key"), Text(all[n], "key")) <==> SafeEqual(Text(entries[i], "key"), key);
      assert SafeEqual(Text(all[i], "alias"), Text(all[n], "alias")) <==> SafeEqual(Text(entries[i], "alias"), alias);
    }
  }

  /** The entry's hash field is one of the texts. */
  predicate HasHashIn(e: Value, hashes: seq<string>) {
    exists i :: 0 <= i < |hashes| && e.Obj? && "hash" in e.fields && e.fields["hash"] == Str(hashes[i])
  }

  /** revoke() removes exactly the listed entries. */
  lemma {:induction false} RevokedAreListed(entries: seq<Value>, hashes: seq<string>, e: Value)
    ensures e in Removed(entries, hashes) <==> e in entries && HasHashIn(e, hashes)
    ensures e in Kept(entries, hashes) <==> e in entries && !HasHashIn(e, hashes)
  {
    if entries != [] {
      var n := |entries| - 1;
      RevokedAreListed(entries[..n], hashes, e);
      assert entries == entries[..n] + [entries[n]];
    }
  }

  /** The values a for-in loop over a parsed text visits: a list's elements, an object's values, a
      text's characters, nothing of any other value; None when the text is not JSON. */
  type Reader = string -> Option<seq<Value>>

  /** An element's hash, when it is a text; anything else equals no listed hash. */
  function Hash(e: Value): Option<string> {
    if e.Obj? && "hash" in e.fields && e.fields["hash"].Str? then Some(e.fields["hash"].text) else None
  }

  /** The listed hashes that are e's, repeats included. */
  function ListedHash(e: Value, hashes: seq<string>): seq<string> {
    if hashes == [] then [] else
      var n := |hashes| - 1;
      ListedHash(e, hashes[..n]) + if Hash(e) == Some(hashes[n]) then [hashes[n]] else []
  }

  /** What revoke() answers. */
  function Pushed(values: seq<Value>, hashes: seq<string>): seq<string> {
    if values == [] then [] else
      var n := |values| - 1;
      Pushed(values[..n], hashes) + ListedHash(values[n], hashes)
  }

  predicate NoRepeats(hashes: seq<string>) {
    forall i, j :: 0 <= i < j < |hashes| ==> hashes[i] != hashes[j]
  }

  lemma {:induction false} ListedOnce(e: Value, hashes: seq<string>)
    requires NoRepeats(hashes)
    ensures ListedHash(e, hashes) == if Listed(e, hashes) then [Hash(e).value] else []
  {
    if hashes != [] {
      var n := |hashes| - 1;
      ListedOnce(e, hashes[..n]);
      assert hashes == hashes[..n] + [hashes[n]];
      assert forall i :: 0 <= i < n ==> hashes[..n][i] != hashes[n];
    }
  }

  /** The hashes answered for a request without repeats are those of the removed entries, in the
      store's order, one each. */
  lemma {:induction false} AnsweredAreRemoved(values: seq<Value>, hashes: seq<string>)
    requires NoRepeats(hashes)
    ensures |Pushed(values, hashes)| == |Removed(values, hashes)|
    ensures forall i :: 0 <= i < |Removed(values, hashes)| ==>
      Hash(Removed(values, hashes)[i]) == Some(Pushed(values, hashes)[i])
  {
    if values != [] {
      var n := |values| - 1;
      AnsweredAreRemoved(values[..n], hashes);
      ListedOnce(values[n], hashes);
    }
  }

  /** The writes of the swap script, key by key. */
  function WriteAll(stores: Stores, keys: seq<string>, next: seq<string>): Stores
    requires |keys| == |next|
  {
    if keys == [] then stores else
      var n := |keys| - 1;
      Write(WriteAll(stores, keys[..n], next[..n]), keys[n], next[n])
  }

  predicate AllMatch(stores: Stores, keys: seq<string>, expected: seq<string>)
    requires |keys| == |expected|
  {
    forall i :: 0 <= i < |keys| ==> Wire(Raw(stores, keys[i])) == expected[i]
  }

  /** On two keys the script is the machine's swap. */
  lemma ScriptIsSwap(stores: Stores, s: Swap)
    ensures var keys, expected, next := [s.source, s.target], [s.expected.0, s.expected.1], [s.next.0, s.next.1];
      Swapped(stores, s) == if AllMatch(stores, keys, expected) then WriteAll(stores, keys, next) else stores
  {
    var keys, expected, next := [s.source, s.target], [s.expected.0, s.expected.1], [s.next.0, s.next.1];
    assert keys[..1] == [s.source] && next[..1] == [s.next.0];
    assert keys[..1][..0] == [] && next[..1][..0] == [];
    assert keys[0] == s.source && keys[1] == s.target && expected[0] == s.expected.0 && expected[1] == s.expected.1;
    assert WriteAll(stores, keys[..1], next[..1]) == Write(stores, s.source, s.next.0);
  }

  class Redis {
    var stores: Stores

    constructor ()
      ensures stores == map[]
    {
      stores := map[];
    }

    /** KEY_STORE_CAS_SCRIPT: compare every key, then write every key. */
    method CompareAndSwap(keys: seq<string>, expected: seq<string>, next: seq<string>) returns (reply: int)
      requires |keys| == |expected| == |next|
      modifies this
      ensures reply == if AllMatch(old(stores), keys, expected) then 1 else 0
      ensures stores == if AllMatch(old(stores), keys, expected) then WriteAll(old(stores), keys, next) else old(stores)
    {
      for i := 0 to |keys|
        invariant stores == old(stores)
        invariant forall j :: 0 <= j < i ==> Wire(Raw(stores, keys[j])) == expected[j]
      {
        var current := if keys[i] in stores then stores[keys[i]] else "";
        if current != expected[i] {
          return 0;
        }
      }
      for i := 0 to |keys|
        invariant stores == WriteAll(old(stores), keys[..i], next[..i])
      {
        assert keys[..i + 1][..i] == keys[..i] && next[..i + 1][..i] == next[..i];
        if next[i] == "" {
          stores := stores - {keys[i]};
        } else {
          stores := stores[keys[i] := next[i]];
        }
      }
      assert keys[..|keys|] == keys && next[..|keys|] == next;
      return 1;
    }

    /** create() after the key has been drawn; stringify is JSON.stringify. */
    method Create(c: Codec, stringify: seq<Value> -> string, owner: string, key: string, alias: string)
      returns (ok: bool)
      modifies this
      ensures var entries := c.Entries(Raw(old(stores), owner));
        var made := if entries == None then None else Created(c.sha, entries.value, key, alias);
        && ok == made.Some?
        && stores == if made == None then old(stores) else old(stores)[owner := stringify(made.value)]
    {
      if owner !in stores {
        stores := stores[owner := stringify([] + [NewEntry(c.sha, key, alias)])];
        return true;
      }
      var entries := c.parse(stores[owner]);
      if entries == None {
        return false;
      }
      for i := 0 to |entries.value|
        invariant stores == old(stores)
        invariant forall j :: 0 <= j < i ==>
          !SafeEqual(Text(entries.value[j], "key"), key) && !SafeEqual(Text(entries.value[j], "alias"), alias)
      {
        if SafeEqual(Text(entries.value[i], "key"), key) || SafeEqual(Text(entries.value[i], "alias"), alias) {
          return false;
        }
      }
      stores := stores[owner := stringify(entries.value + [NewEntry(c.sha, key, alias)])];
      return true;
    }

    /** revoke(): what is kept is written back as a list and the listed hashes are answered. A text
        that is not JSON, and an element that is null, throw before anything is written. */
    method Revoke(read: Reader, stringify: seq<Value> -> string, owner: string, hashes: seq<string>)
      returns (deleted: Result<seq<string>, string>)
      modifies this
      ensures owner !in old(stores) ==> deleted == Err("owner_not_found") && stores == old(stores)
      ensures owner in old(stores) && read(old(stores)[owner]) == None ==>
        deleted == Err("SyntaxError") && stores == old(stores)
      ensures owner in old(stores) && read(old(stores)[owner]).Some? ==>
        var values := read(old(stores)[owner]).value;
        if Null in values then deleted == Err("TypeError") && stores == old(stores)
        else deleted == Ok(Pushed(values, hashes)) && stores == old(stores)[owner := stringify(Kept(values, hashes))]
    {
      if owner !in stores {
        return Err("owner_not_found");
      }
      if read(stores[owner]) == None {
        return Err("SyntaxError");
      }
      var values := read(stores[owner]).value;
      var kept, pushed := [], [];
      for i := 0 to |values|
        invariant stores == old(stores) && Null !in values[..i]
        invariant kept == Kept(values[..i], hashes) && pushed == Pushed(values[..i], hashes)
      {
        assert values[..i + 1][..i] == values[..i];
        if values[i] == Null {
          return Err("TypeError");
        }
        var listed := false;
        for h := 0 to |hashes|
          invariant listed <==> Listed(values[i], hashes[..h])
          invariant pushed == Pushed(values[..i], hashes) + ListedHash(values[i], hashes[..h])
        {
          assert hashes[..h + 1][..h] == hashes[..h];
          if Hash(values[i]) == Some(hashes[h]) {
            listed := true;
            pushed := pushed + [hashes[h]];
          }
        }
        assert hashes[..|hashes|] == hashes;
        if !listed {
          kept := kept + [values[i]];
        }
      }
      assert values[..|values|] == values;
      stores := stores[owner := stringify(kept)];
      return Ok(pushed);
    }
  }
}
