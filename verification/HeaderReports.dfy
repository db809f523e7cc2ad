/**
 * What the header checker reports: which differences and warnings, with which texts, and what the two
 * sides of a policy difference list.
 */
module HeaderReports {
  import opened Wrappers
  import opened Splitting
  import opened StringOrder
  import opened CspPolicy
  import opened HeaderParity

  // ---------------------------------------------------------------- drift and warnings

  lemma {:induction false} GatherMembers(report: string -> seq<Difference>, names: seq<string>, d: Difference)
    ensures d in Gather(report, names) <==> exists name :: name in names && d in report(name)
  {
    if names != [] {
      var n := |names| - 1;
      GatherMembers(report, names[..n], d);
      assert names == names[..n] + [names[n]];
    }
  }

  lemma NameCompared(a: seq<Header>, b: seq<Header>, name: string)
    ensures name in AllNames(a, b) <==> ValueOf(a, name).Some? || ValueOf(b, name).Some?
  {
    NamesCounted(a, b, name);
    CountMember(AllNames(a, b), name);
  }

  /** How a header that is missing on one side, or has another value there, is reported. */
  predicate Reports(d: Difference, a: Option<string>, b: Option<string>) {
    match (a, b)
    case (Some(x), Some(y)) =>
      x != y && if d.header == "content-security-policy" then d.canonical == Side(x, y) && d.other == Side(y, x)
                else d.canonical == x && d.other == y
    case (Some(x), None) => d.canonical == x && d.other == "(absent)"
    case (None, Some(y)) => d.canonical == "(absent)" && d.other == y
    case _ => false
  }

  /** Main result: the drift is exactly one difference for every header whose values differ or that one
      side lacks, with the two values, or what is missing of the policy, or that it is absent. */
  lemma DriftIff(a: seq<Header>, b: seq<Header>, d: Difference)
    ensures d in Drift(a, b) <==> Reports(d, ValueOf(a, d.header), ValueOf(b, d.header))
  {
    var at := name => DriftAt(a, b, name);
    GatherMembers(at, AllNames(a, b), d);
    NameCompared(a, b, d.header);
    assert forall name :: d in at(name) ==> name == d.header;
    assert d in at(d.header) && ValueOf(a, d.header) != ValueOf(b, d.header)
      <==> Reports(d, ValueOf(a, d.header), ValueOf(b, d.header));
  }

  predicate Says(text: string, always: bool) { text == if always then "always" else "no-always" }

  /** Main result: a warning is given exactly for every header of both sides of which one is always
      sent and the other is not, and it says which. */
  lemma WarningIff(a: seq<Header>, b: seq<Header>, d: Difference)
    ensures d in Warnings(a, b) <==>
      && Find(a, d.header).Some? && Find(b, d.header).Some?
      && Find(a, d.header).value.always != Find(b, d.header).value.always
      && Says(d.canonical, Find(a, d.header).value.always) && Says(d.other, Find(b, d.header).value.always)
  {
    var at := name => WarningAt(a, b, name);
    GatherMembers(at, AllNames(a, b), d);
    NameCompared(a, b, d.header);
    assert forall name :: d in at(name) ==> name == d.header;
  }

  // ---------------------------------------------------------------- the sides of a policy difference

  /** The sources of d that the other side's directive of the name does not have. */
  ghost predicate Missing(d: Directive, other: seq<Directive>, sources: seq<string>) {
    match SourcesOf(other, d.name)
    case None => sources == d.sources
    case Some(theirs) => forall x :: Count(sources, x) == if x in theirs then 0 else Count(d.sources, x)
  }

  lemma {:induction false} WithoutCounts(sources: seq<string>, others: seq<string>, x: string)
    ensures Count(Without(sources, others), x) == if x in others then 0 else Count(sources, x)
  {
    if sources != [] {
      WithoutCounts(sources[1..], others, x);
      if sources[0] in others {
        assert Without(sources, others) == Without(sources[1..], others);
      } else {
        assert Without(sources, others)[1..] == Without(sources[1..], others);
      }
    }
  }

  /** The directives that the other side does not cover, in order. */
  function Uncovered(from: seq<Directive>, other: seq<Directive>): seq<Directive> {
    if from == [] then [] else (if Has(other, from[0]) then [] else [from[0]]) + Uncovered(from[1..], other)
  }

  ghost predicate NamesMissing(part: string, d: Directive, other: seq<Directive>) {
    exists sources :: Missing(d, other, sources) && part == Join([d.name] + sources, " ")
  }

  /** What one directive adds to a side. */
  lemma PartOf(d: Directive, more: seq<Directive>, other: seq<Directive>) returns (parts: seq<string>)
    ensures SideParts([d] + more, other) == parts + SideParts(more, other)
    ensures Has(other, d) ==> parts == []
    ensures !Has(other, d) ==> |parts| == 1 && NamesMissing(parts[0], d, other)
  {
    assert ([d] + more)[1..] == more;
    var theirs := SourcesOf(other, d.name);
    if theirs.Some? {
      WithoutIsEmpty(d.sources, theirs.value);
      var sources := Without(d.sources, theirs.value);
      parts := if sources == [] then [] else [Print(Directive(d.name, sources))];
      forall x ensures Count(sources, x) == if x in theirs.value then 0 else Count(d.sources, x) {
        WithoutCounts(d.sources, theirs.value, x);
      }
      assert Missing(d, other, sources);
    } else {
      parts := [Print(d)];
      assert Missing(d, other, d.sources);
    }
  }

  /** Main result: a side names exactly the directives that the other side does not cover, in order,
      each with exactly the sources that are missing there. */
  lemma {:induction false} SideNamesWhatIsMissing(from: seq<Directive>, other: seq<Directive>)
    ensures |SideParts(from, other)| == |Uncovered(from, other)|
    ensures forall k :: 0 <= k < |SideParts(from, other)| ==>
              NamesMissing(SideParts(from, other)[k], Uncovered(from, other)[k], other)
  {
    if from != [] {
      var parts := PartOf(from[0], from[1..], other);
      assert from == [from[0]] + from[1..];
      SideNamesWhatIsMissing(from[1..], other);
    }
  }
}
