/**
 * Canonical design documents: sorted keys, `_rev` dropped at every depth. Comparing the printed
 * canonical forms decides structural equality up to key order and the dropped keys.
 */
module CanonicalJson {
  import opened JsonText
  import opened StringOrder

  /** Keys canonical() never copies: `_rev` by its test, and `__proto__` because assigning it to a
      fresh object sets a prototype, which is not printed. */
  predicate Dropped(key: string) { key == "_rev" || key == "__proto__" }

  function Insert(f: Field, sorted: seq<Field>): seq<Field> {
    if sorted == [] then [f]
    else if Less(sorted[0].key, f.key) then [sorted[0]] + Insert(f, sorted[1..])
    else [f] + sorted
  }

  function Canonical(j: Json): Json
    decreases j, 0
  {
    match j
    case Arr(items) => Arr(CanonicalItems(items))
    case Obj(fields) => Obj(CanonicalFields(fields))
    case _ => j
  }

  function CanonicalItems(items: seq<Json>): seq<Json>
    decreases items, 0
  {
    if items == [] then [] else [Canonical(items[0])] + CanonicalItems(items[1..])
  }

  function CanonicalFields(fields: seq<Field>): seq<Field>
    decreases fields, 0
  {
    if fields == [] then []
    else if Dropped(fields[0].key) then CanonicalFields(fields[1..])
    else Insert(Field(fields[0].key, Canonical(fields[0].value)), CanonicalFields(fields[1..]))
  }

  /** sameDesign: the printed canonical forms are the same text. */
  predicate SameDesign(a: Json, b: Json) { Print(Canonical(a)) == Print(Canonical(b)) }

  // ---------------------------------------------------------------- what it is meant to decide

  predicate HasKey(fields: seq<Field>, key: string) {
    exists i :: 0 <= i < |fields| && fields[i].key == key
  }

  /** Object keys are distinct at every depth, as JSON.parse leaves them. */
  predicate DistinctKeys(j: Json) {
    match j
    case Arr(items) => forall i :: 0 <= i < |items| ==> DistinctKeys(items[i])
    case Obj(fields) =>
      && (forall i :: 0 <= i < |fields| ==> DistinctKeys(fields[i].value))
      && (forall i, k :: 0 <= i < k < |fields| ==> fields[i].key != fields[k].key)
    case _ => true
  }

  /** A key that carries meaning: neither the store's revision nor the prototype. */
  predicate Counts(key: string) { key != "_rev" && key != "__proto__" }

  /** Structural equality, ignoring key order and the keys that carry no meaning at every depth. */
  ghost predicate Equivalent(a: Json, b: Json) {
    match a
    case Arr(items) => b.Arr? && |items| == |b.items| && forall i :: 0 <= i < |items| ==>
      Equivalent(items[i], b.items[i])
    case Obj(fields) =>
      && b.Obj?
      && (forall key :: Counts(key) ==> (HasKey(fields, key) <==> HasKey(b.fields, key)))
      && (forall i, k ::
            0 <= i < |fields| && 0 <= k < |b.fields| && fields[i].key == b.fields[k].key && Counts(fields[i].key) ==>
            Equivalent(fields[i].value, b.fields[k].value))
    case _ => a == b
  }

  // ---------------------------------------------------------------- sorted field lists

  ghost predicate Sorted(fields: seq<Field>) {
    forall i, k :: 0 <= i < k < |fields| ==> Less(fields[i].key, fields[k].key)
  }

  lemma {:induction false} InsertMembers(f: Field, sorted: seq<Field>)
    ensures forall g :: g in Insert(f, sorted) <==> g == f || g in sorted
    decreases |sorted|
  {
    if sorted != [] && Less(sorted[0].key, f.key) {
      InsertMembers(f, sorted[1..]);
      assert sorted == [sorted[0]] + sorted[1..];
    }
  }

  lemma ConsSorted(f: Field, tail: seq<Field>)
    requires Sorted(tail) && forall g :: g in tail ==> Less(f.key, g.key)
    ensures Sorted([f] + tail)
  {
  }

  lemma {:induction false} InsertSorted(f: Field, sorted: seq<Field>)
    requires Sorted(sorted) && forall g :: g in sorted ==> g.key != f.key
    ensures Sorted(Insert(f, sorted))
    decreases |sorted|
  {
    if sorted != [] {
      var head, tail := sorted[0], sorted[1..];
      LessTotal(head.key, f.key);
      if Less(head.key, f.key) {
        InsertSorted(f, tail);
        InsertMembers(f, tail);
        ConsSorted(head, Insert(f, tail));
      } else {
        forall g | g in sorted ensures Less(f.key, g.key) {
          var i :| 0 <= i < |sorted| && sorted[i] == g;
          if i > 0 { LessTransitive(f.key, head.key, g.key); }
        }
        ConsSorted(f, sorted);
      }
    }
  }

  lemma TailMembers(a: seq<Field>, g: Field)
    requires Sorted(a) && a != []
    ensures g in a[1..] <==> g in a && g != a[0]
  {
    LessTotal(g.key, g.key);
    if g in a[1..] {
      var i :| 0 <= i < |a[1..]| && a[1..][i] == g;
      assert Less(a[0].key, a[i + 1].key);
    } else {
      assert a == [a[0]] + a[1..];
    }
  }

  /** A sorted list is determined by its members. */
  lemma {:induction false} SortedUnique(a: seq<Field>, b: seq<Field>)
    requires Sorted(a) && Sorted(b) && forall g :: g in a <==> g in b
    ensures a == b
    decreases |a|
  {
    assert b != [] ==> b[0] in a;
    if a != [] {
      assert a[0] in b && b != [];
      assert b[0] in a;
      var i :| 0 <= i < |b| && b[i] == a[0];
      var k :| 0 <= k < |a| && a[k] == b[0];
      LessTotal(a[0].key, b[0].key);
      assert a[0] == b[0];
      forall g ensures g in a[1..] <==> g in b[1..] {
        TailMembers(a, g);
        TailMembers(b, g);
      }
      SortedUnique(a[1..], b[1..]);
      assert a == [a[0]] + a[1..] && b == [b[0]] + b[1..];
    }
  }

  /** In a sorted list a key occurs once. */
  lemma SortedKeyOnce(a: seq<Field>, f: Field, g: Field)
    requires Sorted(a) && f in a && g in a && f.key == g.key
    ensures f == g
  {
    var i :| 0 <= i < |a| && a[i] == f;
    var k :| 0 <= k < |a| && a[k] == g;
    LessTotal(f.key, f.key);
  }

  // ---------------------------------------------------------------- canonical fields

  /** f is the canonical form of one of the kept fields. */
  ghost predicate Stems(fields: seq<Field>, f: Field) {
    exists i :: 0 <= i < |fields| && !Dropped(fields[i].key) && f == Field(fields[i].key, Canonical(fields[i].value))
  }

  lemma {:induction false} CanonicalMembers(fields: seq<Field>)
    requires forall i, k :: 0 <= i < k < |fields| ==> fields[i].key != fields[k].key
    ensures Sorted(CanonicalFields(fields))
    ensures forall f :: f in CanonicalFields(fields) <==> Stems(fields, f)
    decreases |fields|
  {
    if fields != [] {
      var head, tail := fields[0], fields[1..];
      CanonicalMembers(tail);
      var c := Field(head.key, Canonical(head.value));
      forall f ensures Stems(fields, f) <==> Stems(tail, f) || (!Dropped(head.key) && f == c) {
        if Stems(tail, f) {
          var i :| 0 <= i < |tail| && !Dropped(tail[i].key) && f == Field(tail[i].key, Canonical(tail[i].value));
          assert fields[i + 1] == tail[i];
        }
        if Stems(fields, f) {
          var i :| 0 <= i < |fields| && !Dropped(fields[i].key) &&
            f == Field(fields[i].key, Canonical(fields[i].value));
          if i > 0 { assert tail[i - 1] == fields[i]; }
        }
      }
      if !Dropped(head.key) {
        InsertMembers(c, CanonicalFields(tail));
        InsertSorted(c, CanonicalFields(tail));
      }
    }
  }

  lemma {:induction false} CanonicalItemsAt(items: seq<Json>)
    ensures |CanonicalItems(items)| == |items|
    ensures forall i :: 0 <= i < |items| ==> CanonicalItems(items)[i] == Canonical(items[i])
    decreases |items|
  {
    if items != [] {
      CanonicalItemsAt(items[1..]);
    }
  }

  lemma {:induction false} FieldsSound(a: Json, b: Json)
    requires a.Obj? && b.Obj? && DistinctKeys(a) && DistinctKeys(b) && Equivalent(a, b)
    ensures CanonicalFields(a.fields) == CanonicalFields(b.fields)
    decreases a, 0
  {
    CanonicalMembers(a.fields);
    CanonicalMembers(b.fields);
    forall f ensures Stems(a.fields, f) <==> Stems(b.fields, f) {
      if Stems(a.fields, f) {
        var i :| 0 <= i < |a.fields| && !Dropped(a.fields[i].key) &&
          f == Field(a.fields[i].key, Canonical(a.fields[i].value));
        assert HasKey(a.fields, f.key);
        var k :| 0 <= k < |b.fields| && b.fields[k].key == f.key;
        CanonicalIff(a.fields[i].value, b.fields[k].value);
      }
      if Stems(b.fields, f) {
        var k :| 0 <= k < |b.fields| && !Dropped(b.fields[k].key) &&
          f == Field(b.fields[k].key, Canonical(b.fields[k].value));
        assert HasKey(b.fields, f.key);
        var i :| 0 <= i < |a.fields| && a.fields[i].key == f.key;
        CanonicalIff(a.fields[i].value, b.fields[k].value);
      }
    }
    SortedUnique(CanonicalFields(a.fields), CanonicalFields(b.fields));
  }

  lemma {:induction false} FieldsComplete(a: Json, b: Json)
    requires a.Obj? && b.Obj? && DistinctKeys(a) && DistinctKeys(b)
    requires CanonicalFields(a.fields) == CanonicalFields(b.fields)
    ensures Equivalent(a, b)
    decreases a, 0
  {
    CanonicalMembers(a.fields);
    CanonicalMembers(b.fields);
    forall key | !Dropped(key) ensures HasKey(a.fields, key) <==> HasKey(b.fields, key) {
      if HasKey(a.fields, key) {
        var i :| 0 <= i < |a.fields| && a.fields[i].key == key;
        assert Stems(a.fields, Field(key, Canonical(a.fields[i].value)));
      }
      if HasKey(b.fields, key) {
        var k :| 0 <= k < |b.fields| && b.fields[k].key == key;
        assert Stems(b.fields, Field(key, Canonical(b.fields[k].value)));
      }
    }
    forall i, k | 0 <= i < |a.fields| && 0 <= k < |b.fields| && a.fields[i].key == b.fields[k].key &&
      !Dropped(a.fields[i].key)
      ensures Equivalent(a.fields[i].value, b.fields[k].value)
    {
      var f, g := Field(a.fields[i].key, Canonical(a.fields[i].value)),
        Field(b.fields[k].key, Canonical(b.fields[k].value));
      assert Stems(a.fields, f) && Stems(b.fields, g);
      SortedKeyOnce(CanonicalFields(a.fields), f, g);
      CanonicalIff(a.fields[i].value, b.fields[k].value);
    }
  }

  /** Two values have the same canonical form exactly when they are equivalent. */
  lemma {:induction false} CanonicalIff(a: Json, b: Json)
    requires DistinctKeys(a) && DistinctKeys(b)
    ensures Canonical(a) == Canonical(b) <==> Equivalent(a, b)
    decreases a, 1
  {
    if a.Arr? && b.Arr? {
      CanonicalItemsAt(a.items);
      CanonicalItemsAt(b.items);
      if |a.items| == |b.items| {
        forall i | 0 <= i < |a.items| ensures Canonical(a.items[i]) == Canonical(b.items[i]) <==>
          Equivalent(a.items[i], b.items[i]) {
          CanonicalIff(a.items[i], b.items[i]);
        }
        var ca, cb := CanonicalItems(a.items), CanonicalItems(b.items);
        if Equivalent(a, b) {
          assert ca == cb;
        } else {
          var i :| 0 <= i < |a.items| && !Equivalent(a.items[i], b.items[i]);
          assert ca[i] != cb[i];
        }
      }
    } else if a.Obj? && b.Obj? {
      if Equivalent(a, b) {
        FieldsSound(a, b);
      } else if CanonicalFields(a.fields) == CanonicalFields(b.fields) {
        FieldsComplete(a, b);
      }
    }
  }

  // ---------------------------------------------------------------- the printed comparison

  lemma {:induction false} InsertPrintable(f: Field, sorted: seq<Field>)
    requires Printable(f.value) && FieldsPrintable(sorted)
    ensures FieldsPrintable(Insert(f, sorted))
    decreases |sorted|
  {
    if sorted != [] && Less(sorted[0].key, f.key) {
      InsertPrintable(f, sorted[1..]);
    }
  }

  lemma {:induction false} CanonicalPrintable(j: Json)
    requires Printable(j)
    ensures Printable(Canonical(j))
    decreases j, 0
  {
    if j.Arr? {
      ItemsPrintable(j.items);
    } else if j.Obj? {
      FieldsStayPrintable(j.fields);
    }
  }

  lemma {:induction false} ItemsPrintable(items: seq<Json>)
    requires AllPrintable(items)
    ensures AllPrintable(CanonicalItems(items))
    decreases items, 0
  {
    if items != [] {
      CanonicalPrintable(items[0]);
      ItemsPrintable(items[1..]);
      assert CanonicalItems(items)[1..] == CanonicalItems(items[1..]);
    }
  }

  lemma {:induction false} FieldsStayPrintable(fields: seq<Field>)
    requires FieldsPrintable(fields)
    ensures FieldsPrintable(CanonicalFields(fields))
    decreases fields, 0
  {
    if fields != [] {
      FieldsStayPrintable(fields[1..]);
      if !Dropped(fields[0].key) {
        CanonicalPrintable(fields[0].value);
        InsertPrintable(Field(fields[0].key, Canonical(fields[0].value)), CanonicalFields(fields[1..]));
      }
    }
  }

  lemma {:induction false} EquivalentToItself(a: Json)
    requires DistinctKeys(a)
    ensures Equivalent(a, a)
  {
    match a
    case Arr(items) =>
      forall i | 0 <= i < |items| ensures Equivalent(items[i], items[i]) { EquivalentToItself(items[i]); }
    case Obj(fields) =>
      forall i, k | 0 <= i < |fields| && 0 <= k < |fields| && fields[i].key == fields[k].key
        ensures Equivalent(fields[i].value, fields[k].value)
      {
        EquivalentToItself(fields[i].value);
      }
    case _ =>
  }

  /** A JSON document as it is parsed: printable, with distinct keys. */
  predicate Parsed(j: Json) { Printable(j) && DistinctKeys(j) }

  /** Main result: comparing the printed canonical forms decides equivalence, for all documents. */
  lemma SameDesignIffEquivalent(a: Json, b: Json)
    requires Parsed(a) && Parsed(b)
    ensures SameDesign(a, b) <==> Equivalent(a, b)
  {
    CanonicalIff(a, b);
    CanonicalPrintable(a);
    CanonicalPrintable(b);
    if SameDesign(a, b) {
      var ca, cb := Canonical(a), Canonical(b);
      assert Print(ca) + "" == Print(ca) && Print(cb) + "" == Print(cb);
      PrintUnique(ca, cb, "", "");
    }
  }

  /** Main result: a field more makes a document another one exactly when its key is neither `_rev`
      nor `__proto__`. */
  lemma FieldCountsIff(fields: seq<Field>, f: Field)
    requires Parsed(Obj(fields)) && Parsed(Obj(fields + [f]))
    ensures SameDesign(Obj(fields + [f]), Obj(fields)) <==> f.key == "_rev" || f.key == "__proto__"
  {
    var n, more := |fields|, fields + [f];
    assert more[n] == f && forall i :: 0 <= i < n ==> more[i] == fields[i];
    assert HasKey(more, f.key) && !HasKey(fields, f.key);
    forall key ensures HasKey(more, key) <==> HasKey(fields, key) || key == f.key {
      if HasKey(fields, key) {
        var i :| 0 <= i < n && fields[i].key == key;
        assert more[i].key == key;
      }
    }
    forall i, k | 0 <= i <= n && 0 <= k < n && more[i].key == fields[k].key ensures i == k {
    }
    forall i | 0 <= i < n ensures Equivalent(fields[i].value, fields[i].value) {
      EquivalentToItself(fields[i].value);
    }
    SameDesignIffEquivalent(Obj(more), Obj(fields));
  }

  /** Besides `_rev`, a `__proto__` key is invisible to the comparison. */
  lemma ProtoKeyIsIgnored(v: Json)
    requires Parsed(v)
    ensures SameDesign(Obj([]), Obj([Field("__proto__", v)]))
  {
    assert CanonicalFields([Field("__proto__", v)]) == CanonicalFields([]);
  }
}
