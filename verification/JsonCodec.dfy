/**
 * JSON as the stores' own codec: a text reads as the list it prints, and the lists that a move
 * writes can be printed again. So what KeyStripGap says of codecs that can, it says of JSON.
 */
module JsonCodec {
  import opened Wrappers
  import J = JsonText
  import opened KeyEntries
  import opened KeyTransfers
  import opened KeyTruth
  import opened KeyRestores
  import opened KeyStripGap

  // ---------------------------------------------------------------- reading

  /** What JSON.parse makes of a printed value; of two fields of one name the later counts. */
  function ToValue(j: J.Json): Value
    decreases j, 0
  {
    match j
    case Null => Null
    case Bool(b) => Scalar(if b then "true" else "false")
    case Num(t) => Scalar(t)
    case Str(s) => Str(s)
    case Arr(items) => List(ToValues(items))
    case Obj(fields) => Obj(ToMap(fields))
  }

  function ToValues(items: seq<J.Json>): seq<Value>
    decreases items, 0
  {
    if items == [] then [] else [ToValue(items[0])] + ToValues(items[1..])
  }

  function ToMap(fields: seq<J.Field>): map<string, Value>
    decreases fields, 0
  {
    if fields == [] then map[] else map[fields[0].key := ToValue(fields[0].value)] + ToMap(fields[1..])
  }

  ghost predicate IsText(text: string, items: seq<J.Json>) {
    J.AllPrintable(items) && text == J.Print(J.Arr(items))
  }

  /** JSON.parse of a list that JSON.stringify has printed. */
  ghost function Read(text: string): Option<seq<Value>> {
    if exists items :: IsText(text, items) then
      var items :| IsText(text, items);
      Some(ToValues(items))
    else None
  }

  ghost function Json(sha: Sha): Codec { Codec(Read, sha) }

  lemma ReadsWhatItPrints(items: seq<J.Json>)
    requires J.AllPrintable(items)
    ensures Read(J.Print(J.Arr(items))) == Some(ToValues(items))
  {
    var text := J.Print(J.Arr(items));
    assert IsText(text, items);
    forall other | IsText(text, other) ensures other == items {
      assert text + "" == text;
      J.PrintUnique(J.Arr(items), J.Arr(other), "", "");
    }
  }

  lemma ListIsNotEmpty(items: seq<J.Json>)
    ensures J.Print(J.Arr(items)) != ""
  {
  }

  /** JSON is a codec as the machine wants it: the empty text, which stands for no store, is none. */
  lemma EmptyIsNoText(sha: Sha)
    ensures Json(sha).Valid()
  {
    forall items ensures !IsText("", items) { ListIsNotEmpty(items); }
  }

  // ---------------------------------------------------------------- values that print

  /** The value is what some printable JSON value reads as. */
  ghost predicate IsJson(v: Value) { exists j :: J.Printable(j) && ToValue(j) == v }

  ghost predicate AllJson(vs: seq<Value>) { forall i :: 0 <= i < |vs| ==> IsJson(vs[i]) }

  lemma {:induction false} ReadIsJson(items: seq<J.Json>)
    requires J.AllPrintable(items)
    ensures AllJson(ToValues(items))
  {
    if items != [] {
      ReadIsJson(items[1..]);
      assert IsJson(ToValue(items[0]));
    }
  }

  lemma EntriesAreJson(sha: Sha, raw: Option<string>)
    requires Json(sha).Entries(raw).Some?
    ensures AllJson(Json(sha).Entries(raw).value)
  {
    if raw.Some? {
      var items :| IsText(raw.value, items) && Read(raw.value) == Some(ToValues(items));
      ReadIsJson(items);
    }
  }

  lemma {:induction false} AllJsonIsList(vs: seq<Value>) returns (items: seq<J.Json>)
    requires AllJson(vs)
    ensures J.AllPrintable(items) && ToValues(items) == vs
  {
    if vs == [] {
      items := [];
    } else {
      var more := AllJsonIsList(vs[1..]);
      var j :| J.Printable(j) && ToValue(j) == vs[0];
      items := [j] + more;
      assert items[1..] == more;
    }
  }

  lemma JsonPrints(sha: Sha, vs: seq<Value>)
    requires AllJson(vs)
    ensures Prints(Json(sha), vs)
  {
    var items := AllJsonIsList(vs);
    ReadsWhatItPrints(items);
    assert Json(sha).parse(J.Print(J.Arr(items))) == Some(vs);
  }

  // ---------------------------------------------------------------- a moved entry prints

  lemma PrintableCons(f: J.Field, more: seq<J.Field>)
    ensures J.FieldsPrintable([f] + more) <==> J.Printable(f.value) && J.FieldsPrintable(more)
  {
    assert ([f] + more)[1..] == more;
  }

  lemma MapCons(f: J.Field, more: seq<J.Field>)
    ensures ToMap([f] + more) == map[f.key := ToValue(f.value)] + ToMap(more)
  {
    assert ([f] + more)[1..] == more;
  }

  lemma {:induction false} PrintableEnd(fields: seq<J.Field>, f: J.Field)
    requires J.FieldsPrintable(fields) && J.Printable(f.value)
    ensures J.FieldsPrintable(fields + [f])
  {
    if fields == [] {
      PrintableCons(f, []);
      assert fields + [f] == [f] + [];
    } else {
      var first, more := fields[0], fields[1..];
      assert fields == [first] + more && fields + [f] == [first] + (more + [f]);
      PrintableEnd(more, f);
      PrintableCons(first, more + [f]);
    }
  }

  lemma MapEnd(m: map<string, Value>, n: map<string, Value>, key: string, v: Value)
    ensures m + n[key := v] == (m + n)[key := v]
  {
  }

  /** A field more. */
  lemma {:induction false} ToMapEnd(fields: seq<J.Field>, f: J.Field)
    ensures ToMap(fields + [f]) == ToMap(fields)[f.key := ToValue(f.value)]
  {
    if fields == [] {
      MapCons(f, []);
      assert fields + [f] == [f] + [];
    } else {
      var first, more := fields[0], fields[1..];
      assert fields == [first] + more && fields + [f] == [first] + (more + [f]);
      ToMapEnd(more, f);
      MapCons(first, more + [f]);
      MapEnd(map[first.key := ToValue(first.value)], ToMap(more), f.key, ToValue(f.value));
    }
  }

  lemma SetIsJson(m: map<string, Value>, key: string, v: Value)
    requires IsJson(Obj(m)) && IsJson(v)
    ensures IsJson(Obj(m[key := v]))
  {
    var o :| J.Printable(o) && ToValue(o) == Obj(m);
    var j :| J.Printable(j) && ToValue(j) == v;
    PrintableEnd(o.fields, J.Field(key, j));
    ToMapEnd(o.fields, J.Field(key, j));
    assert ToValue(J.Obj(o.fields + [J.Field(key, j)])) == Obj(m[key := v]);
  }

  function Others(fields: seq<J.Field>, key: string): seq<J.Field> {
    if fields == [] then []
    else if fields[0].key == key then Others(fields[1..], key)
    else [fields[0]] + Others(fields[1..], key)
  }

  lemma {:induction false} PrintableWithout(fields: seq<J.Field>, key: string)
    requires J.FieldsPrintable(fields)
    ensures J.FieldsPrintable(Others(fields, key))
  {
    if fields != [] {
      PrintableWithout(fields[1..], key);
      PrintableCons(fields[0], Others(fields[1..], key));
    }
  }

  lemma MapWithout(first: string, v: Value, m: map<string, Value>, key: string)
    ensures first == key ==> (map[first := v] + m) - {key} == m - {key}
    ensures first != key ==> (map[first := v] + m) - {key} == map[first := v] + (m - {key})
  {
  }

  /** A field less. */
  lemma {:induction false} ToMapWithout(fields: seq<J.Field>, key: string)
    ensures ToMap(Others(fields, key)) == ToMap(fields) - {key}
  {
    if fields != [] {
      var first, more := fields[0], fields[1..];
      ToMapWithout(more, key);
      MapCons(first, Others(more, key));
      MapWithout(first.key, ToValue(first.value), ToMap(more), key);
    }
  }

  lemma DropIsJson(m: map<string, Value>, key: string)
    requires IsJson(Obj(m))
    ensures IsJson(Obj(m - {key}))
  {
    var o :| J.Printable(o) && ToValue(o) == Obj(m);
    PrintableWithout(o.fields, key);
    ToMapWithout(o.fields, key);
    assert ToValue(J.Obj(Others(o.fields, key))) == Obj(m - {key});
  }

  lemma TextIsJson(s: string)
    ensures IsJson(Str(s))
  {
    assert ToValue(J.Str(s)) == Str(s);
  }

  lemma BindingIsJson(udid: string, from: seq<string>, at: string)
    ensures IsJson(Binding(udid, from, at))
  {
    forall i | 0 <= i < |Texts(from)| ensures IsJson(Texts(from)[i]) { TextIsJson(from[i]); }
    var items := AllJsonIsList(Texts(from));
    assert ToValue(J.Arr(items)) == List(Texts(from));
    TextIsJson(udid);
    TextIsJson(at);
    assert ToValue(J.Obj([])) == Obj(map[]);
    SetIsJson(map[], "udid", Str(udid));
    SetIsJson(map["udid" := Str(udid)], "from", List(Texts(from)));
    SetIsJson(map["udid" := Str(udid), "from" := List(Texts(from))], "at", Str(at));
    assert map["udid" := Str(udid), "from" := List(Texts(from))]["at" := Str(at)]
        == map["udid" := Str(udid), "from" := List(Texts(from)), "at" := Str(at)];
  }

  lemma MovedIsJson(e: Value, source: string, target: string, udid: string, at: string, strip: bool,
                    targetEntries: seq<Value>)
    requires IsEntry(e) && IsJson(e)
    ensures IsJson(MovedEntry(e, source, target, udid, at, strip, targetEntries))
  {
    var from := KeepOwners(PreviousOwners(e, source, udid), target, []);
    var fields := if strip then e.fields - {"transfer"} else e.fields["transfer" := Binding(udid, from, at)];
    BindingIsJson(udid, from, at);
    DropIsJson(e.fields, "transfer");
    SetIsJson(e.fields, "transfer", Binding(udid, from, at));
    var r := MovedEntry(e, source, target, udid, at, strip, targetEntries);
    if r != Obj(fields) {
      TextIsJson(Text(r, "alias"));
      SetIsJson(fields, "alias", Str(Text(r, "alias")));
    }
  }

  // ---------------------------------------------------------------- what a move writes

  /** A move between two lists of JSON writes two lists of JSON. */
  lemma MoveWritesJson(sha: Sha, away: seq<Value>, home: seq<Value>, i: nat, moved: Value)
    requires AllJson(away) && AllJson(home) && i < |away| && IsJson(moved)
    ensures Prints(Json(sha), RemoveAt(away, i)) && Prints(Json(sha), home + [moved])
  {
    JsonPrints(sha, RemoveAt(away, i));
    JsonPrints(sha, home + [moved]);
  }

  lemma JsonCanWrite(sha: Sha, job: Job, r: Raws, m: Move)
    ensures CanWrite(Json(sha), job, r, m)
  {
    var c := Json(sha);
    if NamesAnother(c, job, r) {
      var home, away := c.Entries(r.0).value, c.Entries(r.1).value;
      EntriesAreJson(sha, r.0);
      EntriesAreJson(sha, r.1);
      HitsAreHits(c.sha, away, job.Lastkey());
      var g := FindDeviceKey(c.sha, away, job.Lastkey());
      MovedIsJson(g.entry, m.target, m.source, m.udid, "", true, home);
      MoveWritesJson(sha, away, home, g.index, MovedEntry(g.entry, m.target, m.source, m.udid, "", true, home));
    }
  }

  /** Main result: with JSON stores, "moved_back" is true in every run exactly when lastkey names no
      other key at the target. */
  lemma MovedBackIsTrueIffInJson(sha: Sha, w: World, id: nat, job: Job, r: Raws, m: Move)
    requires Restoring(Json(sha), w, id, job, r, m)
    ensures MovedBackIsTrue(Json(sha), w, id, job, r, m) <==> !NamesAnother(Json(sha), job, r)
  {
    JsonCanWrite(sha, job, r, m);
    MovedBackIsTrueIff(Json(sha), w, id, job, r, m);
  }
}
