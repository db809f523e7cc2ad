/** What a device's report and an envelope's tag are taken for, said of their parts. */
module OfferTexts {
  import opened Wrappers
  import opened JsText
  import opened Splitting
  import opened SemVer
  import opened UpdateOffer
  import opened EndlessOffer

  // ---------------------------------------------------------------- the report

  /** What is compared of an invalid report: its first eight parts, and zeros up to three. */
  predicate IsPadded(parts: seq<string>, report: seq<string>) {
    && |parts| == (if |report| < 3 then 3 else if |report| > 8 then 8 else |report|)
    && forall k :: 0 <= k < |parts| ==> parts[k] == if k < |report| then report[k] else "0"
  }

  /** Main result: a device without a version counts as 0.0.1, a valid report as itself, and any other
      as its first eight parts with zeros up to three. */
  lemma ReportStandsFor(reported: Option<string>)
    ensures reported == None ==> DeviceVersion(reported) == DeviceVersion(Some("0.0.1"))
    ensures reported.Some? && Parse(reported.value).Some? ==> DeviceVersion(reported) == reported.value
    ensures reported.Some? && Parse(reported.value).None? ==>
      exists parts :: IsPadded(parts, SplitOn(reported.value, '.')) && DeviceVersion(reported) == Join(parts, ".")
  {
    if reported.Some? {
      PaddedParts(SplitOn(reported.value, '.'));
      assert IsPadded(Padded(SplitOn(reported.value, '.')), SplitOn(reported.value, '.'));
    }
  }

  // ---------------------------------------------------------------- the tag

  /** The parts of a tag: trimmed, without one leading v of either case, split at its dots. */
  lemma TagPartsAre(name: string, tag: string)
    requires Lacks(tag, ':')
    ensures var t := Trim(tag);
      TagParts(name + ([':'] + tag)) == SplitOn(if t != "" && (t[0] == 'v' || t[0] == 'V') then t[1..] else t, '.')
  {
    AfterColonAppend(name, tag);
  }

  predicate IsNoNumber(part: string) { part == "" || exists k :: 0 <= k < |part| && !('0' <= part[k] <= '9') }

  /** An envelope's version that is valid stands for itself, and one whose tag has a part that is no
      number for nothing. */
  lemma EnvelopeStandsFor(version: string)
    ensures Parse(version).Some? ==> FixAvailable(version) == Some(version)
    ensures forall i :: 0 <= i < |TagParts(version)| && Parse(version).None? && IsNoNumber(TagParts(version)[i]) ==>
              FixAvailable(version) == None
  {
  }

  function Sum(ns: seq<nat>): nat { if ns == [] then 0 else ns[0] + Sum(ns[1..]) }

  /** Of four or five numbers the last ones are added up; of more, the third counts; and what is
      missing is 0. */
  function Third(ns: seq<nat>): nat {
    if |ns| < 3 then 0 else if |ns| == 4 || |ns| == 5 then Sum(ns[2..]) else ns[2]
  }

  lemma CollapsedIs(ns: seq<nat>)
    requires ns != []
    ensures Collapsed(ns) == (ns[0], if |ns| > 1 then ns[1] else 0, Third(ns))
  {
    if |ns| == 4 {
      assert ns[2..][1..] == ns[3..] && ns[3..][1..] == [];
      assert Sum(ns[3..]) == ns[3];
    } else if |ns| == 5 {
      assert ns[2..][1..] == ns[3..] && ns[3..][1..] == ns[4..] && ns[4..][1..] == [];
      assert Sum(ns[4..]) == ns[4] && Sum(ns[3..]) == ns[3] + ns[4];
    }
  }

  /** Main result: whatever the firmware's name, a tag of numbers stands for major, minor and the third
      number, or for nothing when one of these is beyond the safe integers. */
  lemma TagStandsFor(name: string, ns: seq<nat>, version: string)
    requires ns != [] && version == name + ([':'] + Join(Printed(ns), "."))
    ensures var minor := if |ns| > 1 then ns[1] else 0;
      FixAvailable(version) ==
        if ns[0] <= 9007199254740991 && minor <= 9007199254740991 && Third(ns) <= 9007199254740991
        then Some(Digits(ns[0]) + (['.'] + (Digits(minor) + (['.'] + Digits(Third(ns))))))
        else None
  {
    TagCollapses(name, ns, version);
    CollapsedIs(ns);
    TripleIsValidIff(Collapsed(ns));
  }
}
