/**
 * Comparing the server-level headers of two nginx configurations: no drift is reported exactly
 * when every header has the same normal value on both sides.
 */
module HeaderParity {
  import opened Wrappers
  import opened Splitting
  import opened StringOrder
  import opened CspPolicy

  const CSP := "content-security-policy"
  const PERMISSIONS_POLICY := "permissions-policy"
  const ABSENT := "(absent)"
  const NONE := "(none)"
  const SCRIPT_SRC := "script-src"
  const UNSAFE_EVAL := "'unsafe-eval'"

  datatype Header = Header(name: string, value: string, always: bool)

  // ---------------------------------------------------------------- normalise

  function Features(parts: seq<string>): seq<string> {
    if parts == [] then [] else
      (if Collapse(parts[0]) == "" then [] else [Collapse(parts[0])]) + Features(parts[1..])
  }

  function PermissionsValue(value: string): string { Join(SortStrings(Features(SplitOn(value, ','))), ", ") }

  function NormalHeader(h: Header): Header {
    var name := Lower(h.name);
    Header(name, if name == CSP then CspValue(h.value) else if name == PERMISSIONS_POLICY then PermissionsValue(h.value)
                 else Collapse(h.value), h.always)
  }

  function Find(hs: seq<Header>, name: string): (found: Option<Header>)
    ensures found.Some? ==> found.value in hs && found.value.name == name
    ensures found.None? ==> forall i :: 0 <= i < |hs| ==> hs[i].name != name
  {
    if hs == [] then None else if hs[0].name == name then Some(hs[0]) else Find(hs[1..], name)
  }

  function NormalHeaders(hs: seq<Header>): seq<Header> {
    if hs == [] then [] else
      var before := NormalHeaders(hs[..|hs| - 1]);
      var h := NormalHeader(hs[|hs| - 1]);
      if Find(before, h.name).Some? then before else before + [h]
  }

  method Normalise(headers: seq<Header>) returns (out: seq<Header>)
    ensures out == NormalHeaders(headers)
  {
    out := [];
    for i := 0 to |headers|
      invariant out == NormalHeaders(headers[..i])
    {
      assert headers[..i + 1][..i] == headers[..i];
      var name := Lower(headers[i].name);
      if Find(out, name).Some? {
        continue;
      }
      var value;
      if name == CSP {
        value := CspValue(headers[i].value);
      } else if name == PERMISSIONS_POLICY {
        value := PermissionsValue(headers[i].value);
      } else {
        value := Collapse(headers[i].value);
      }
      out := out + [Header(name, value, headers[i].always)];
    }
    assert headers[..|headers|] == headers;
  }

  /** The first header of a name, letter case aside. */
  function FirstNamed(hs: seq<Header>, name: string): Option<Header> {
    if hs == [] then None else if Lower(hs[0].name) == name then Some(hs[0]) else FirstNamed(hs[1..], name)
  }

  lemma {:induction false} FindAppend(hs: seq<Header>, h: Header, name: string)
    ensures Find(hs + [h], name) ==
            if Find(hs, name).Some? then Find(hs, name) else if h.name == name then Some(h) else None
  {
    if hs == [] {
      assert (hs + [h])[1..] == [];
    } else {
      assert (hs + [h])[1..] == hs[1..] + [h];
      FindAppend(hs[1..], h, name);
    }
  }

  lemma {:induction false} FirstNamedAppend(hs: seq<Header>, h: Header, name: string)
    ensures FirstNamed(hs + [h], name) ==
            if FirstNamed(hs, name).Some? then FirstNamed(hs, name) else if Lower(h.name) == name then Some(h) else None
  {
    if hs == [] {
      assert (hs + [h])[1..] == [];
    } else {
      assert (hs + [h])[1..] == hs[1..] + [h];
      FirstNamedAppend(hs[1..], h, name);
    }
  }

  predicate KeepsFirst(hs: seq<Header>, name: string) {
    Find(NormalHeaders(hs), name) == match FirstNamed(hs, name) case None => None case Some(h) => Some(NormalHeader(h))
  }

  lemma KeepsFirstNext(before: seq<Header>, h: Header, name: string)
    requires KeepsFirst(before, name)
    ensures KeepsFirst(before + [h], name)
  {
    var hs := before + [h];
    assert hs[..|hs| - 1] == before && hs[|hs| - 1] == h;
    FirstNamedAppend(before, h, name);
    FindAppend(NormalHeaders(before), NormalHeader(h), name);
  }

  lemma {:induction false} KeepsFirstAlways(hs: seq<Header>, name: string)
    ensures KeepsFirst(hs, name)
  {
    if hs != [] {
      var before, h := hs[..|hs| - 1], hs[|hs| - 1];
      KeepsFirstAlways(before, name);
      KeepsFirstNext(before, h, name);
      assert before + [h] == hs;
    }
  }

  /** Normalising keeps, under each name, the normal form of the first header of that name. */
  lemma FirstHeaderWins(hs: seq<Header>, name: string)
    ensures Find(NormalHeaders(hs), name) ==
            match FirstNamed(hs, name) case None => None case Some(h) => Some(NormalHeader(h))
  {
    KeepsFirstAlways(hs, name);
  }

  // ---------------------------------------------------------------- compare

  datatype Difference = Difference(header: string, canonical: string, other: string)

  function Swapped(d: Difference): Difference { Difference(d.header, d.other, d.canonical) }

  /** new Map(list): a later directive of a name replaces the sources of the earlier one. */
  function Put(m: seq<Directive>, d: Directive): seq<Directive> {
    if m == [] then [d] else if m[0].name == d.name then [d] + m[1..] else [m[0]] + Put(m[1..], d)
  }

  function AsMap(ds: seq<Directive>): seq<Directive> {
    if ds == [] then [] else Put(AsMap(ds[..|ds| - 1]), ds[|ds| - 1])
  }

  function SourcesOf(m: seq<Directive>, name: string): Option<seq<string>> {
    if m == [] then None else if m[0].name == name then Some(m[0].sources) else SourcesOf(m[1..], name)
  }

  function Without(sources: seq<string>, others: seq<string>): seq<string> {
    if sources == [] then [] else (if sources[0] in others then [] else [sources[0]]) + Without(sources[1..], others)
  }

  function SideParts(from: seq<Directive>, other: seq<Directive>): seq<string> {
    if from == [] then [] else
      var d := from[0];
      (match SourcesOf(other, d.name)
       case None => [Print(d)]
       case Some(theirs) => if Without(d.sources, theirs) == [] then []
         else [Print(Directive(d.name, Without(d.sources, theirs)))])
      + SideParts(from[1..], other)
  }

  function Side(value: string, other: string): string {
    var text := Join(SideParts(AsMap(CspDirectives(value)), AsMap(CspDirectives(other))), "; ");
    if text == "" then NONE else text
  }

  function DriftAt(a: seq<Header>, b: seq<Header>, name: string): seq<Difference> {
    match (Find(a, name), Find(b, name))
    case (Some(x), Some(y)) =>
      if x.value == y.value then []
      else if name == CSP then [Difference(name, Side(x.value, y.value), Side(y.value, x.value))]
      else [Difference(name, x.value, y.value)]
    case (x, y) =>
      [Difference(name, if x.Some? then x.value.value else ABSENT, if y.Some? then y.value.value else ABSENT)]
  }

  function Said(always: bool): string { if always then "always" else "no-always" }

  function WarningAt(a: seq<Header>, b: seq<Header>, name: string): seq<Difference> {
    match (Find(a, name), Find(b, name))
    case (Some(x), Some(y)) => if x.always == y.always then [] else [Difference(name, Said(x.always), Said(y.always))]
    case _ => []
  }

  /** What is reported for each name, in the order of the names. */
  function Gather(report: string -> seq<Difference>, names: seq<string>): seq<Difference> {
    if names == [] then [] else Gather(report, names[..|names| - 1]) + report(names[|names| - 1])
  }

  function Drift(a: seq<Header>, b: seq<Header>): seq<Difference> {
    Gather(name => DriftAt(a, b, name), AllNames(a, b))
  }

  function Warnings(a: seq<Header>, b: seq<Header>): seq<Difference> {
    Gather(name => WarningAt(a, b, name), AllNames(a, b))
  }

  function Keys(hs: seq<Header>): seq<string> {
    if hs == [] then [] else [hs[0].name] + Keys(hs[1..])
  }

  /** Array.from(new Set(list)) */
  function Distinct(xs: seq<string>): seq<string> {
    if xs == [] then [] else
      var before := Distinct(xs[..|xs| - 1]);
      if xs[|xs| - 1] in before then before else before + [xs[|xs| - 1]]
  }

  function AllNames(a: seq<Header>, b: seq<Header>): seq<string> { SortStrings(Distinct(Keys(a) + Keys(b))) }

  /** 'unsafe-eval' dropped from script-src when the other side's script-src lacks it. */
  function DropEval(ds: seq<Directive>): seq<Directive> {
    if ds == [] then [] else
      [if ds[0].name == SCRIPT_SRC then ds[0].(sources := Without(ds[0].sources, [UNSAFE_EVAL])) else ds[0]] +
        DropEval(ds[1..])
  }

  predicate OmitsEval(ds: seq<Directive>) {
    var theirs := SourcesOf(AsMap(ds), SCRIPT_SRC);
    theirs.Some? && UNSAFE_EVAL !in theirs.value
  }

  function WithValue(hs: seq<Header>, name: string, value: string): seq<Header> {
    if hs == [] then []
    else if hs[0].name == name then [hs[0].(value := value)] + hs[1..]
    else [hs[0]] + WithValue(hs[1..], name, value)
  }

  function WithoutOmittedEval(a: seq<Header>, b: seq<Header>): seq<Header> {
    match (Find(a, CSP), Find(b, CSP))
    case (Some(x), Some(y)) =>
      if OmitsEval(CspDirectives(y.value)) then WithValue(a, CSP, Render(DropEval(CspDirectives(x.value)))) else a
    case _ => a
  }

  method Compare(canonical: seq<Header>, other: seq<Header>, evalOptional: bool)
    returns (drift: seq<Difference>, warnings: seq<Difference>)
    ensures var a := if evalOptional then WithoutOmittedEval(canonical, other) else canonical;
      drift == Drift(a, other) && warnings == Warnings(a, other)
  {
    var a := if evalOptional then WithoutOmittedEval(canonical, other) else canonical;
    drift, warnings := CompareNames(a, other, AllNames(a, other),
                                    name => DriftAt(a, other, name), name => WarningAt(a, other, name));
  }

  method CompareNames(a: seq<Header>, b: seq<Header>, names: seq<string>,
                      ghost driftAt: string -> seq<Difference>, ghost warningAt: string -> seq<Difference>)
    returns (drift: seq<Difference>, warnings: seq<Difference>)
    requires forall i :: 0 <= i < |names| ==>
      driftAt(names[i]) == DriftAt(a, b, names[i]) && warningAt(names[i]) == WarningAt(a, b, names[i])
    ensures drift == Gather(driftAt, names) && warnings == Gather(warningAt, names)
  {
    drift, warnings := [], [];
    for i := 0 to |names|
      invariant drift == Gather(driftAt, names[..i]) && warnings == Gather(warningAt, names[..i])
    {
      assert names[..i + 1][..i] == names[..i];
      var d, w := CompareOne(a, b, names[i]);
      drift, warnings := drift + d, warnings + w;
    }
    assert names[..|names|] == names;
  }

  method CompareOne(a: seq<Header>, b: seq<Header>, name: string)
    returns (drift: seq<Difference>, warnings: seq<Difference>)
    ensures drift == DriftAt(a, b, name) && warnings == WarningAt(a, b, name)
  {
    drift, warnings := [], [];
    var x, y := Find(a, name), Find(b, name);
    if x.None? || y.None? {
      drift := [Difference(name, if x.Some? then x.value.value else ABSENT, if y.Some? then y.value.value else ABSENT)];
      return;
    }
    if x.value.value != y.value.value {
      if name == CSP {
        drift := [Difference(name, Side(x.value.value, y.value.value), Side(y.value.value, x.value.value))];
      } else {
        drift := [Difference(name, x.value.value, y.value.value)];
      }
    }
    if x.value.always != y.value.always {
      warnings := [Difference(name, Said(x.value.always), Said(y.value.always))];
    }
  }

  // ---------------------------------------------------------------- what a CSP difference names

  /** Everything d asks for is in the other side's directive of its name. */
  predicate Has(other: seq<Directive>, d: Directive) {
    match SourcesOf(other, d.name)
    case None => false
    case Some(theirs) => forall i :: 0 <= i < |d.sources| ==> d.sources[i] in theirs
  }

  lemma {:induction false} WithoutIsEmpty(sources: seq<string>, others: seq<string>)
    ensures Without(sources, others) == [] <==> forall i :: 0 <= i < |sources| ==> sources[i] in others
  {
    if sources != [] {
      WithoutIsEmpty(sources[1..], others);
      if Without(sources, others) == [] {
        assert forall i :: 0 < i < |sources| ==> sources[i] == sources[1..][i - 1];
      }
    }
  }

  lemma SideStep(from: seq<Directive>, other: seq<Directive>)
    requires from != []
    ensures SideParts(from, other) == [] <==> Has(other, from[0]) && SideParts(from[1..], other) == []
  {
    var theirs := SourcesOf(other, from[0].name);
    if theirs.Some? {
      WithoutIsEmpty(from[0].sources, theirs.value);
    }
  }

  /** A side of a CSP difference is silent exactly when the other side has all it asks for. */
  lemma {:induction false} SilentIffCovered(from: seq<Directive>, other: seq<Directive>)
    ensures SideParts(from, other) == [] <==> forall i :: 0 <= i < |from| ==> Has(other, from[i])
  {
    if from != [] {
      SilentIffCovered(from[1..], other);
      SideStep(from, other);
      if SideParts(from, other) == [] {
        assert forall i :: 0 < i < |from| ==> from[i] == from[1..][i - 1];
      }
    }
  }

  // ---------------------------------------------------------------- no drift

  function ValueOf(hs: seq<Header>, name: string): Option<string> {
    match Find(hs, name) case None => None case Some(h) => Some(h.value)
  }

  ghost predicate SameValues(a: seq<Header>, b: seq<Header>) {
    forall name :: ValueOf(a, name) == ValueOf(b, name)
  }

  lemma {:induction false} KeysAreNames(hs: seq<Header>, name: string)
    ensures name in Keys(hs) <==> Find(hs, name).Some?
  {
    if hs != [] {
      KeysAreNames(hs[1..], name);
      assert Keys(hs) == [hs[0].name] + Keys(hs[1..]);
    }
  }

  lemma {:induction false} CountAppend(xs: seq<string>, y: string, x: string)
    ensures Count(xs + [y], x) == Count(xs, x) + if x == y then 1 else 0
  {
    if xs == [] {
      assert xs + [y] == [y];
    } else {
      assert (xs + [y])[1..] == xs[1..] + [y];
      CountAppend(xs[1..], y, x);
    }
  }

  lemma {:induction false} DistinctCounts(xs: seq<string>, x: string)
    ensures Count(Distinct(xs), x) == if x in xs then 1 else 0
  {
    if xs != [] {
      var n := |xs| - 1;
      DistinctCounts(xs[..n], x);
      assert xs == xs[..n] + [xs[n]];
      CountAppend(Distinct(xs[..n]), xs[n], x);
      CountMember(Distinct(xs[..n]), xs[n]);
      DistinctCounts(xs[..n], xs[n]);
    }
  }

  /** The names compared are those of either side, each once. */
  lemma NamesCounted(a: seq<Header>, b: seq<Header>, name: string)
    ensures Count(AllNames(a, b), name) == if Find(a, name).Some? || Find(b, name).Some? then 1 else 0
  {
    SortCounts(Distinct(Keys(a) + Keys(b)), name);
    DistinctCounts(Keys(a) + Keys(b), name);
    KeysAreNames(a, name);
    KeysAreNames(b, name);
  }

  lemma {:induction false} GatherIsEmpty(report: string -> seq<Difference>, names: seq<string>)
    ensures Gather(report, names) == [] <==> forall name :: name in names ==> report(name) == []
  {
    if names != [] {
      var n := |names| - 1;
      GatherIsEmpty(report, names[..n]);
      assert forall name :: name in names <==> name in names[..n] || name == names[n] by {
        assert names == names[..n] + [names[n]];
      }
    }
  }

  lemma NothingAtIffSameValue(a: seq<Header>, b: seq<Header>, name: string)
    ensures ValueOf(a, name) == ValueOf(b, name) <==>
      (DriftAt(a, b, name) == [] || (Find(a, name).None? && Find(b, name).None?))
    ensures name in AllNames(a, b) <==> Find(a, name).Some? || Find(b, name).Some?
  {
    NamesCounted(a, b, name);
    CountMember(AllNames(a, b), name);
  }

  lemma SameValuesIff(a: seq<Header>, b: seq<Header>, driftAt: string -> seq<Difference>)
    requires forall name :: driftAt(name) == DriftAt(a, b, name)
    ensures SameValues(a, b) <==> forall name :: name in AllNames(a, b) ==> driftAt(name) == []
  {
    forall name ensures ValueOf(a, name) == ValueOf(b, name) <==> (name in AllNames(a, b) ==> driftAt(name) == []) {
      NothingAtIffSameValue(a, b, name);
    }
  }

  /** Main result: no drift is reported exactly when every header has the same value on both sides. */
  lemma NoDriftIffSameValues(a: seq<Header>, b: seq<Header>)
    ensures Drift(a, b) == [] <==> SameValues(a, b)
  {
    var driftAt := name => DriftAt(a, b, name);
    GatherIsEmpty(driftAt, AllNames(a, b));
    SameValuesIff(a, b, driftAt);
  }

  // ---------------------------------------------------------------- symmetry

  function SwapAll(ds: seq<Difference>): seq<Difference> {
    seq(|ds|, i requires 0 <= i < |ds| => Swapped(ds[i]))
  }

  lemma {:induction false} GatherSwaps(f: string -> seq<Difference>, g: string -> seq<Difference>, names: seq<string>)
    requires forall name :: g(name) == SwapAll(f(name))
    ensures Gather(g, names) == SwapAll(Gather(f, names))
  {
    if names != [] {
      GatherSwaps(f, g, names[..|names| - 1]);
    }
  }

  lemma SameNamesEitherWay(a: seq<Header>, b: seq<Header>)
    ensures AllNames(a, b) == AllNames(b, a)
  {
    SortedIsInOrder(Distinct(Keys(a) + Keys(b)));
    SortedIsInOrder(Distinct(Keys(b) + Keys(a)));
    forall name ensures Count(AllNames(a, b), name) == Count(AllNames(b, a), name) {
      NamesCounted(a, b, name);
      NamesCounted(b, a, name);
    }
    OrderedByCounts(AllNames(a, b), AllNames(b, a));
  }

  lemma ReportsSwap(a: seq<Header>, b: seq<Header>, name: string)
    ensures DriftAt(b, a, name) == SwapAll(DriftAt(a, b, name))
    ensures WarningAt(b, a, name) == SwapAll(WarningAt(a, b, name))
  {
  }

  /** Main result: comparing the other way round reports the same headers with the sides swapped. */
  lemma CompareIsSymmetric(a: seq<Header>, b: seq<Header>)
    ensures Drift(b, a) == SwapAll(Drift(a, b)) && Warnings(b, a) == SwapAll(Warnings(a, b))
  {
    SameNamesEitherWay(a, b);
    forall name ensures DriftAt(b, a, name) == SwapAll(DriftAt(a, b, name)) &&
      WarningAt(b, a, name) == SwapAll(WarningAt(a, b, name)) {
      ReportsSwap(a, b, name);
    }
    GatherSwaps(name => DriftAt(a, b, name), name => DriftAt(b, a, name), AllNames(a, b));
    GatherSwaps(name => WarningAt(a, b, name), name => WarningAt(b, a, name), AllNames(a, b));
  }

  // ---------------------------------------------------------------- what the same value means

  predicate IsFeature(f: string) { f != "" && Collapse(f) == f && Lacks(f, ',') }

  predicate AreFeatures(fs: seq<string>) { fs == [] || (IsFeature(fs[0]) && AreFeatures(fs[1..])) }

  lemma CollapseTwice(s: string)
    ensures Words(Collapse(s)) == Words(s) && Collapse(Collapse(s)) == Collapse(s)
    ensures Lacks(s, ',') ==> Lacks(Collapse(s), ',')
  {
    CollapseIsWords(s);
    WordsAreWords(s);
    WordsOfJoin(Words(s));
    CollapseIsWords(Collapse(s));
    if Lacks(s, ',') {
      WordsLack(s, ',');
      JoinLacks(Words(s), " ", ',');
    }
  }

  lemma {:induction false} FeaturesAreFeatures(parts: seq<string>)
    requires forall i :: 0 <= i < |parts| ==> Lacks(parts[i], ',')
    ensures AreFeatures(Features(parts))
  {
    if parts != [] {
      FeaturesAreFeatures(parts[1..]);
      CollapseTwice(parts[0]);
      if Collapse(parts[0]) != "" {
        assert Features(parts)[1..] == Features(parts[1..]);
      } else {
        assert Features(parts) == Features(parts[1..]);
      }
    }
  }

  lemma {:induction false} InsertFeature(f: string, sorted: seq<string>)
    requires IsFeature(f) && AreFeatures(sorted)
    ensures AreFeatures(InsertString(f, sorted))
  {
    if sorted != [] && Less(sorted[0], f) {
      InsertFeature(f, sorted[1..]);
      assert InsertString(f, sorted)[1..] == InsertString(f, sorted[1..]);
    } else {
      assert InsertString(f, sorted)[1..] == sorted;
    }
  }

  lemma {:induction false} SortFeatures(fs: seq<string>)
    requires AreFeatures(fs)
    ensures AreFeatures(SortStrings(fs))
  {
    if fs != [] {
      SortFeatures(fs[1..]);
      InsertFeature(fs[0], SortStrings(fs[1..]));
    }
  }

  lemma FeaturesAfterSpace(rest: string)
    ensures Features(SplitOn(" " + rest, ',')) == Features(SplitOn(rest, ','))
  {
    var parts := SplitOn(rest, ',');
    assert (" " + rest)[1..] == rest;
    assert SplitOn(" " + rest, ',') == [" " + parts[0]] + parts[1..];
    assert (" " + parts[0])[1..] == parts[0];
    CollapseIsWords(parts[0]);
    CollapseIsWords(" " + parts[0]);
    assert ([" " + parts[0]] + parts[1..])[1..] == parts[1..];
  }

  lemma FeaturesFirst(f: string, parts: seq<string>)
    requires IsFeature(f)
    ensures Features([f] + parts) == [f] + Features(parts)
  {
    assert ([f] + parts)[1..] == parts;
  }

  lemma FeaturesStep(f: string, rest: string, text: string)
    requires IsFeature(f) && text == f + ([','] + (" " + rest))
    ensures Features(SplitOn(text, ',')) == [f] + Features(SplitOn(rest, ','))
  {
    SplitHead(f, ',', " " + rest);
    FeaturesAfterSpace(rest);
    FeaturesFirst(f, SplitOn(" " + rest, ','));
  }

  lemma FeaturesOfNone()
    ensures Features(SplitOn("", ',')) == []
  {
    assert SplitOn("", ',') == [""];
    CollapseIsWords("");
    assert Features([""]) == Features([""][1..]);
  }

  lemma CommaSpace(rest: string)
    ensures ", " + rest == [','] + (" " + rest)
  {
  }

  /** Reading joined features gives them back. */
  lemma {:induction false} FeaturesOfJoin(fs: seq<string>, text: string)
    requires AreFeatures(fs) && text == Join(fs, ", ")
    ensures Features(SplitOn(text, ',')) == fs
  {
    if fs == [] {
      FeaturesOfNone();
    } else if |fs| == 1 {
      SplitWhole(fs[0], ',');
      FeaturesFirst(fs[0], []);
    } else {
      var rest := Join(fs[1..], ", ");
      FeaturesOfJoin(fs[1..], rest);
      CommaSpace(rest);
      FeaturesStep(fs[0], rest, text);
      assert fs == [fs[0]] + fs[1..];
    }
  }

  lemma PermissionsRead(v: string)
    ensures Features(SplitOn(PermissionsValue(v), ',')) == SortStrings(Features(SplitOn(v, ',')))
  {
    var fs := Features(SplitOn(v, ','));
    FeaturesAreFeatures(SplitOn(v, ','));
    SortFeatures(fs);
    FeaturesOfJoin(SortStrings(fs), PermissionsValue(v));
  }

  /** Two values of a header mean the same: the same policy, the same features equally often, or
      the same words. */
  ghost predicate SameValue(name: string, v: string, w: string) {
    if name == "content-security-policy" then MeansTheSame(v, w)
    else if name == "permissions-policy" then SameCounts(Features(SplitOn(v, ',')), Features(SplitOn(w, ',')))
    else Words(v) == Words(w)
  }

  lemma NormalHeaderDecides(x: Header, y: Header)
    requires Lower(x.name) == Lower(y.name)
    ensures NormalHeader(x).value == NormalHeader(y).value <==> SameValue(Lower(x.name), x.value, y.value)
  {
    var name := Lower(x.name);
    if name == CSP {
      NormalValueDecidesMeaning(x.value, y.value);
    } else if name == PERMISSIONS_POLICY {
      PermissionsRead(x.value);
      PermissionsRead(y.value);
      SortsAlike(Features(SplitOn(x.value, ',')), Features(SplitOn(y.value, ',')));
    } else {
      CollapseTwice(x.value);
      CollapseTwice(y.value);
      CollapseIsWords(x.value);
      CollapseIsWords(y.value);
    }
  }

  ghost predicate SameHeader(a: seq<Header>, b: seq<Header>, name: string) {
    match (FirstNamed(a, name), FirstNamed(b, name))
    case (Some(x), Some(y)) => SameValue(name, x.value, y.value)
    case (x, y) => x == y
  }

  lemma {:induction false} FirstNamedHasName(hs: seq<Header>, name: string)
    ensures FirstNamed(hs, name).Some? ==> Lower(FirstNamed(hs, name).value.name) == name
  {
    if hs != [] {
      FirstNamedHasName(hs[1..], name);
    }
  }

  lemma SameHeaderIff(a: seq<Header>, b: seq<Header>, name: string)
    ensures ValueOf(NormalHeaders(a), name) == ValueOf(NormalHeaders(b), name) <==> SameHeader(a, b, name)
  {
    FirstHeaderWins(a, name);
    FirstHeaderWins(b, name);
    FirstNamedHasName(a, name);
    FirstNamedHasName(b, name);
    if FirstNamed(a, name).Some? && FirstNamed(b, name).Some? {
      NormalHeaderDecides(FirstNamed(a, name).value, FirstNamed(b, name).value);
    }
  }

  /** Main result: two files drift nowhere exactly when, for every header name, both lack it or
      their first headers of that name mean the same. */
  lemma NoDriftIffSameHeaders(a: seq<Header>, b: seq<Header>)
    ensures Drift(NormalHeaders(a), NormalHeaders(b)) == [] <==> forall name :: SameHeader(a, b, name)
  {
    NoDriftIffSameValues(NormalHeaders(a), NormalHeaders(b));
    forall name ensures ValueOf(NormalHeaders(a), name) == ValueOf(NormalHeaders(b), name) <==> SameHeader(a, b, name) {
      SameHeaderIff(a, b, name);
    }
  }

  // ---------------------------------------------------------------- the optional 'unsafe-eval'

  lemma NotBelow(a: string, b: string, c: string)
    requires !Less(b, a) && !Less(c, b)
    ensures !Less(c, a)
  {
    LessTotal(a, b);
    LessTotal(b, c);
    LessTotal(c, a);
    if Less(c, a) && Less(a, b) { LessTransitive(c, a, b); }
  }

  lemma {:induction false} WithoutInOrder(xs: seq<string>, others: seq<string>)
    requires InOrder(xs)
    ensures InOrder(Without(xs, others))
    ensures Without(xs, others) != [] ==> !Less(Without(xs, others)[0], xs[0])
  {
    if xs != [] {
      WithoutInOrder(xs[1..], others);
      LessTotal(xs[0], xs[0]);
      var rest := Without(xs[1..], others);
      if rest != [] {
        NotBelow(xs[0], xs[1], rest[0]);
        assert ([xs[0]] + rest)[1..] == rest;
      }
      assert [] + rest == rest;
    }
  }

  lemma {:induction false} WithoutMembers(xs: seq<string>, others: seq<string>, x: string)
    ensures x in Without(xs, others) ==> x in xs
  {
    if xs != [] {
      WithoutMembers(xs[1..], others, x);
      assert xs == [xs[0]] + xs[1..];
    }
  }

  lemma EvalDropped(d: Directive)
    requires IsNormalDirective(d)
    ensures IsNormalDirective(d.(sources := Without(d.sources, [UNSAFE_EVAL])))
  {
    WithoutInOrder(d.sources, [UNSAFE_EVAL]);
    var kept := Without(d.sources, [UNSAFE_EVAL]);
    forall i | 0 <= i < |kept| ensures IsToken(kept[i]) && !IsPlaceholder(kept[i]) {
      WithoutMembers(d.sources, [UNSAFE_EVAL], kept[i]);
    }
  }

  lemma {:induction false} DropEvalIsNormal(ds: seq<Directive>)
    requires IsNormal(ds)
    ensures IsNormal(DropEval(ds))
    ensures |DropEval(ds)| == |ds| && (ds != [] ==> DropEval(ds)[0].name == ds[0].name)
  {
    if ds != [] {
      DropEvalIsNormal(ds[1..]);
      EvalDropped(ds[0]);
      assert DropEval(ds)[1..] == DropEval(ds[1..]);
    }
  }

  lemma {:induction false} FindWithValue(hs: seq<Header>, name: string, value: string, other: string)
    ensures Find(WithValue(hs, name, value), other) ==
            match Find(hs, other)
            case None => None
            case Some(h) => Some(if other == name then h.(value := value) else h)
  {
    if hs != [] {
      FindWithValue(hs[1..], name, value, other);
    }
  }

  lemma DropEvalReads(v: string)
    ensures CspDirectives(Render(DropEval(CspDirectives(v)))) == DropEval(CspDirectives(v))
  {
    DirectivesAreNormal(v);
    DropEvalIsNormal(CspDirectives(v));
    RereadNormal(DropEval(CspDirectives(v)));
  }

  /** What the exception compares the policy of the other side with. */
  function Expected(v: string, w: string): string {
    if OmitsEval(CspDirectives(w)) then Render(DropEval(CspDirectives(v))) else CspValue(v)
  }

  lemma ExpectedDecides(v: string, w: string)
    ensures Expected(v, w) == CspValue(w) <==>
            CspDirectives(w) == if OmitsEval(CspDirectives(w)) then DropEval(CspDirectives(v)) else CspDirectives(v)
  {
    DropEvalReads(v);
    NormalValueIsStable(v);
    NormalValueIsStable(w);
  }

  lemma ExceptionTouchesOneValue(a: seq<Header>, b: seq<Header>, v: string, w: string, name: string)
    requires ValueOf(a, CSP) == Some(CspValue(v)) && ValueOf(b, CSP) == Some(CspValue(w))
    ensures Find(WithoutOmittedEval(a, b), name) ==
            if name == CSP then Some(Find(a, CSP).value.(value := Expected(v, w))) else Find(a, name)
  {
    NormalValueIsStable(v);
    NormalValueIsStable(w);
    FindWithValue(a, CSP, Render(DropEval(CspDirectives(v))), name);
  }

  lemma DriftBetween(a: seq<Header>, b: seq<Header>, name: string, x: Header, y: Header)
    requires Find(a, name) == Some(x) && Find(b, name) == Some(y)
    ensures DriftAt(a, b, name) == [] <==> x.value == y.value
  {
  }

  /** Main result: with the exception on, a policy that omits 'unsafe-eval' from script-src is the
      canonical one exactly when it equals the canonical one without that token there; any other
      policy still has to be the canonical one. */
  lemma OmittedEvalIsAllCompared(a: seq<Header>, b: seq<Header>, v: string, w: string)
    requires ValueOf(a, CSP) == Some(CspValue(v)) && ValueOf(b, CSP) == Some(CspValue(w))
    ensures DriftAt(WithoutOmittedEval(a, b), b, CSP) == [] <==>
            CspDirectives(w) == if OmitsEval(CspDirectives(w)) then DropEval(CspDirectives(v)) else CspDirectives(v)
  {
    ExpectedDecides(v, w);
    ExceptionTouchesOneValue(a, b, v, w, CSP);
    DriftBetween(WithoutOmittedEval(a, b), b, CSP, Find(a, CSP).value.(value := Expected(v, w)), Find(b, CSP).value);
  }

  /** Every other header is compared as without the exception. */
  lemma ExceptionKeepsOthers(a: seq<Header>, b: seq<Header>, v: string, w: string, name: string)
    requires ValueOf(a, CSP) == Some(CspValue(v)) && ValueOf(b, CSP) == Some(CspValue(w)) && name != CSP
    ensures DriftAt(WithoutOmittedEval(a, b), b, name) == DriftAt(a, b, name)
  {
    ExceptionTouchesOneValue(a, b, v, w, name);
  }
}
