/**
 * What the optional 'unsafe-eval' forgives, said of the policies as they are written: the script-src
 * directives of one side may list it where the other side lists none.
 */
module EvalException {
  import opened Wrappers
  import opened Splitting
  import opened StringOrder
  import opened CspPolicy
  import opened HeaderParity
  import HeaderReports

  /** The source lists of the directives of one name, as written. */
  function ListsOf(value: string, name: string): seq<seq<string>> { Named(Written(SplitOn(value, ';')), name) }

  /** The last script-src directive, the one that counts, does not list 'unsafe-eval'. */
  predicate OmitsIt(w: string) {
    var lists := ListsOf(w, "script-src");
    lists != [] && "'unsafe-eval'" !in lists[|lists| - 1]
  }

  /** The sources of y are those of x, placeholders aside, except that 'unsafe-eval' is none of y's. */
  ghost predicate SameWithoutIt(name: string, x: seq<string>, y: seq<string>) {
    forall z :: z != "__WEB_HOSTNAME__" && z != "__NGINX_HOST__" ==>
      Count(y, z) == if name == "script-src" && z == "'unsafe-eval'" then 0 else Count(x, z)
  }

  ghost predicate AllWithoutIt(v: string, w: string) {
    forall name :: |ListsOf(v, name)| == |ListsOf(w, name)|
      && forall k :: 0 <= k < |ListsOf(v, name)| ==> SameWithoutIt(name, ListsOf(v, name)[k], ListsOf(w, name)[k])
  }

  /** w means what v means, or omits 'unsafe-eval' from script-src and means the rest of it. */
  ghost predicate SameButEval(v: string, w: string) {
    if OmitsIt(w) then AllWithoutIt(v, w) else MeansTheSame(v, w)
  }

  // ---------------------------------------------------------------- which script-src counts

  lemma {:induction false} PutFinds(m: seq<Directive>, d: Directive, name: string)
    ensures SourcesOf(Put(m, d), name) == if d.name == name then Some(d.sources) else SourcesOf(m, name)
  {
    if m != [] {
      PutFinds(m[1..], d, name);
    }
  }

  lemma {:induction false} NamedSnoc(ds: seq<Directive>, d: Directive, name: string)
    ensures Named(ds + [d], name) == Named(ds, name) + if d.name == name then [d.sources] else []
  {
    if ds == [] {
      assert ds + [d] == [d] && [d][1..] == [];
    } else {
      assert (ds + [d])[1..] == ds[1..] + [d];
      NamedSnoc(ds[1..], d, name);
    }
  }

  /** Of several directives of a name, the last one's sources count. */
  lemma {:induction false} LastOneCounts(ds: seq<Directive>, name: string)
    ensures SourcesOf(AsMap(ds), name) ==
            if Named(ds, name) == [] then None else Some(Named(ds, name)[|Named(ds, name)| - 1])
  {
    if ds != [] {
      var before, d := ds[..|ds| - 1], ds[|ds| - 1];
      LastOneCounts(before, name);
      PutFinds(AsMap(before), d, name);
      NamedSnoc(before, d, name);
      assert before + [d] == ds;
    }
  }

  // ---------------------------------------------------------------- sources as they are compared

  lemma ReadLists(v: string, name: string)
    ensures |Named(CspDirectives(v), name)| == |ListsOf(v, name)|
    ensures forall k :: 0 <= k < |ListsOf(v, name)| ==>
              Named(CspDirectives(v), name)[k] == SortStrings(Kept(ListsOf(v, name)[k]))
  {
    ReadTidiesWritten(SplitOn(v, ';'));
    SortNamed(Read(SplitOn(v, ';')), name);
    TidyNamed(Written(SplitOn(v, ';')), name);
  }

  lemma ComparedCounts(x: seq<string>, z: string)
    ensures Count(SortStrings(Kept(x)), z) == if z == "__WEB_HOSTNAME__" || z == "__NGINX_HOST__" then 0
      else Count(x, z)
  {
    SortCounts(Kept(x), z);
    KeptCounts(x, z);
  }

  lemma OmitsIff(w: string)
    ensures OmitsEval(CspDirectives(w)) <==> OmitsIt(w)
  {
    LastOneCounts(CspDirectives(w), SCRIPT_SRC);
    ReadLists(w, SCRIPT_SRC);
    var lists := ListsOf(w, "script-src");
    if lists != [] {
      var last := lists[|lists| - 1];
      ComparedCounts(last, UNSAFE_EVAL);
      CountMember(last, UNSAFE_EVAL);
      CountMember(SortStrings(Kept(last)), UNSAFE_EVAL);
    }
  }

  // ---------------------------------------------------------------- dropping it

  function Dropped(name: string, sources: seq<string>): seq<string> {
    if name == SCRIPT_SRC then Without(sources, [UNSAFE_EVAL]) else sources
  }

  lemma {:induction false} DropNamed(ds: seq<Directive>, name: string)
    ensures |Named(DropEval(ds), name)| == |Named(ds, name)|
    ensures forall k :: 0 <= k < |Named(ds, name)| ==> Named(DropEval(ds), name)[k] == Dropped(name, Named(ds, name)[k])
  {
    if ds != [] {
      DropNamed(ds[1..], name);
      assert DropEval(ds)[1..] == DropEval(ds[1..]);
    }
  }

  lemma DroppedIff(name: string, x: seq<string>, y: seq<string>)
    ensures Dropped(name, SortStrings(Kept(x))) == SortStrings(Kept(y)) <==> SameWithoutIt(name, x, y)
  {
    var sx, sy := SortStrings(Kept(x)), SortStrings(Kept(y));
    SortedIsInOrder(Kept(x));
    SortedIsInOrder(Kept(y));
    WithoutInOrder(sx, [UNSAFE_EVAL]);
    var dx := Dropped(name, sx);
    forall z
      ensures Count(sy, z) == if z == "__WEB_HOSTNAME__" || z == "__NGINX_HOST__" then 0 else Count(y, z)
      ensures Count(dx, z) == if z == "__WEB_HOSTNAME__" || z == "__NGINX_HOST__" then 0
                              else if name == "script-src" && z == "'unsafe-eval'" then 0 else Count(x, z)
    {
      ComparedCounts(x, z);
      ComparedCounts(y, z);
      HeaderReports.WithoutCounts(sx, [UNSAFE_EVAL], z);
    }
    if SameWithoutIt(name, x, y) {
      forall z ensures Count(dx, z) == Count(sy, z) {
      }
      OrderedByCounts(dx, sy);
    } else {
      var z :| z != "__WEB_HOSTNAME__" && z != "__NGINX_HOST__" &&
        Count(y, z) != if name == "script-src" && z == "'unsafe-eval'" then 0 else Count(x, z);
      assert Count(dx, z) != Count(sy, z);
    }
  }

  lemma DropOrder(ds: seq<Directive>)
    requires NamesInOrder(ds)
    ensures NamesInOrder(DropEval(ds))
  {
    if |ds| > 1 {
      DropOrder(ds[1..]);
      assert DropEval(ds)[1..] == DropEval(ds[1..]);
    }
  }

  lemma NamedDropIff(v: string, w: string, name: string)
    ensures Named(DropEval(CspDirectives(v)), name) == Named(CspDirectives(w), name)
       <==> |ListsOf(v, name)| == |ListsOf(w, name)|
            && forall k :: 0 <= k < |ListsOf(v, name)| ==> SameWithoutIt(name, ListsOf(v, name)[k], ListsOf(w, name)[k])
  {
    ReadLists(v, name);
    ReadLists(w, name);
    DropNamed(CspDirectives(v), name);
    var x, y := ListsOf(v, name), ListsOf(w, name);
    forall k | 0 <= k < |x| && |x| == |y|
      ensures Named(DropEval(CspDirectives(v)), name)[k] == Named(CspDirectives(w), name)[k]
         <==> SameWithoutIt(name, x[k], y[k])
    {
      DroppedIff(name, x[k], y[k]);
    }
  }

  lemma DropIff(v: string, w: string)
    ensures DropEval(CspDirectives(v)) == CspDirectives(w) <==> AllWithoutIt(v, w)
  {
    SortNamesInOrder(Read(SplitOn(v, ';')));
    SortNamesInOrder(Read(SplitOn(w, ';')));
    DropOrder(CspDirectives(v));
    forall name
      ensures Named(DropEval(CspDirectives(v)), name) == Named(CspDirectives(w), name)
         <==> |ListsOf(v, name)| == |ListsOf(w, name)|
              && forall k :: 0 <= k < |ListsOf(v, name)| ==>
                SameWithoutIt(name, ListsOf(v, name)[k], ListsOf(w, name)[k])
    {
      NamedDropIff(v, w, name);
    }
    if AllWithoutIt(v, w) {
      OrderedByNamed(DropEval(CspDirectives(v)), CspDirectives(w));
    }
  }

  /** The exception compares exactly this. */
  lemma ComparedButEval(v: string, w: string)
    ensures CspDirectives(w) == (if OmitsEval(CspDirectives(w)) then DropEval(CspDirectives(v)) else CspDirectives(v))
       <==> SameButEval(v, w)
  {
    OmitsIff(w);
    DropIff(v, w);
    DirectivesDecideMeaning(v, w);
    DirectivesDecideMeaning(w, v);
  }
}
