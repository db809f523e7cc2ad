/**
 * When a device is offered the latest firmware: the version an envelope stands for, the version a
 * device reports, and whether a device that runs a build is offered that build again.
 *
 *   envelope          stands for      reported as is, read as
 *   1.2.3-rc.1        itself          itself
 *   1.2               1.2.0           1.2.0
 *   name:v1           1.0.0           name:v1.0.0, which is no version
 *   name:1.2.3.4      1.2.7           name:1.2.3.4, which is no version
 *   name:01.2.3       1.2.3           name:01.2.3, which is no version
 *   name:1.2-rc       nothing
 *
 * A report that is no version is never offered anything, and neither, in the same environment, is
 * one that reads as what the envelope stands for. What is left is proved about every text.
 */
module UpdateOffer {
  import opened Wrappers
  import opened JsText
  import opened Splitting
  import opened SemVer

  // ---------------------------------------------------------------- the envelope's version

  /** The text after the last colon. */
  function AfterColon(s: string): (tail: string)
    ensures Lacks(tail, ':') && (Lacks(s, ':') ==> tail == s)
  {
    if s == "" || s[|s| - 1] == ':' then "" else
      var tail := AfterColon(s[..|s| - 1]) + [s[|s| - 1]];
      assert Lacks(s, ':') ==> tail == s by { assert s[..|s| - 1] + [s[|s| - 1]] == s; }
      tail
  }

  function StripAnyV(s: string): string { if s != "" && (s[0] == 'v' || s[0] == 'V') then s[1..] else s }

  function TagParts(version: string): seq<string> { SplitOn(StripAnyV(Trim(AfterColon(version))), '.') }

  predicate AreNumbers(parts: seq<string>) { forall i :: 0 <= i < |parts| ==> parts[i] != "" && AllDigits(parts[i]) }

  function Numbers(parts: seq<string>): (ns: seq<nat>)
    requires AreNumbers(parts)
    ensures |ns| == |parts| && forall i :: 0 <= i < |ns| ==> ns[i] == Number(parts[i])
  {
    if parts == [] then [] else NumberNat(parts[0]); [Number(parts[0]) as nat] + Numbers(parts[1..])
  }

  /** How many parts decide what becomes of them: the third, fourth and fifth are added up. */
  function Collapsed(n: seq<nat>): (nat, nat, nat)
    requires n != []
  {
    match |n|
    case 1 => (n[0], 0, 0)
    case 2 => (n[0], n[1], 0)
    case 4 => (n[0], n[1], n[2] + n[3])
    case 5 => (n[0], n[1], n[2] + n[3] + n[4])
    case _ => (n[0], n[1], n[2])
  }

  function Triple(t: (nat, nat, nat)): string { Digits(t.0) + (['.'] + (Digits(t.1) + (['.'] + Digits(t.2)))) }

  /** The version an envelope stands for, or none when it cannot be compared. */
  function FixAvailable(version: string): Option<string> {
    if Parse(version).Some? then Some(version)
    else if !AreNumbers(TagParts(version)) then None
    else
      var text := Triple(Collapsed(Numbers(TagParts(version))));
      if Parse(text).Some? then Some(text) else None
  }

  // ---------------------------------------------------------------- the device's version

  const SEGMENTS := 8

  function FirstSegments(segments: seq<string>): seq<string> {
    if |segments| > SEGMENTS then segments[..SEGMENTS] else segments
  }

  function Padded(segments: seq<string>): seq<string> {
    var first := FirstSegments(segments);
    if |first| < 3 then first + ["0", "0", "0"][|first|..] else first
  }

  function DeviceVersion(reported: Option<string>): string {
    var v := if reported.Some? then reported.value else "0.0.1";
    if Parse(v).Some? then v else Join(Padded(SplitOn(v, '.')), ".")
  }

  method ParseDeviceVersion(reported: Option<string>) returns (version: string)
    ensures version == DeviceVersion(reported)
  {
    version := if reported.Some? then reported.value else "0.0.1";
    if Parse(version).None? {
      var parts := Pad(SplitOn(version, '.'));
      version := Join(parts, ".");
    }
  }

  method Pad(segments: seq<string>) returns (parts: seq<string>)
    ensures parts == Padded(segments)
  {
    parts := ["0", "0", "0"];
    var i := 0;
    while i < SEGMENTS && i < |segments|
      invariant 0 <= i <= SEGMENTS && i <= |segments|
      invariant |parts| == if i < 3 then 3 else i
      invariant forall k :: 0 <= k < |parts| ==> parts[k] == if k < i then segments[k] else "0"
    {
      parts := if i < |parts| then parts[i := segments[i]] else parts + [segments[i]];
      i := i + 1;
    }
    assert parts == Padded(segments);
  }

  // ---------------------------------------------------------------- the offer

  /** The latest firmware of a device: its version and the hash of the environment it was built for. */
  datatype Envelope = Envelope(version: Option<string>, envHash: Option<string>)

  datatype Device = Device(version: Option<string>, envHash: Option<string>)

  predicate EnvironmentChanged(device: Option<string>, available: Option<string>) {
    && device.Some? && device.value != "" && !("cafebabe" <= device.value)
    && available.Some? && available.value != "" && !Contains(device.value, available.value)
  }

  function Available(envelope: Option<Envelope>): Option<string> {
    if envelope.Some? && envelope.value.version.Some? then FixAvailable(envelope.value.version.value) else None
  }

  /** The device's version is below the available one, or the same and the environment changed. */
  predicate Offered(device: Device, envelope: Option<Envelope>) {
    match (Parse(DeviceVersion(device.version)), Available(envelope))
    case (Some(mine), Some(text)) =>
      Parse(text).Some? &&
      (Below(mine, Parse(text).value) || (mine == Parse(text).value &&
        EnvironmentChanged(device.envHash, envelope.value.envHash)))
    case _ => false
  }

  lemma AvailableIsValid(envelope: Option<Envelope>)
    ensures Available(envelope).Some? ==> envelope.Some? && Parse(Available(envelope).value).Some?
  {
  }

  method HasUpdateAvailable(device: Device, envelope: Option<Envelope>) returns (outdated: bool)
    ensures outdated == Offered(device, envelope)
  {
    var deviceVersion := ParseDeviceVersion(device.version);
    AvailableIsValid(envelope);
    var mine := Parse(deviceVersion);
    if mine.None? {
      return false;
    }
    var available := Available(envelope);
    if available.None? {
      return false;
    }
    var theirs := Parse(available.value).value;
    outdated := Below(mine.value, theirs);
    if outdated {
      PrecedenceIsTotal(mine.value, theirs);
      return true;
    }
    if mine.value == theirs {
      var deviceHash := device.envHash;
      if deviceHash.Some? && |deviceHash.value| > 0 {
        if !("cafebabe" <= deviceHash.value) {
          var availableHash := envelope.value.envHash;
          if availableHash.Some? && |availableHash.value| > 0 && !Contains(deviceHash.value, availableHash.value) {
            outdated := true;
          }
        }
      }
    }
  }

  /** A device on the available version is offered it again exactly when both hashes are known, its
      own is not the default one, and the envelope's occurs nowhere in it. */
  lemma SameVersionOfferedIff(device: Device, envelope: Option<Envelope>)
    requires Available(envelope).Some? && Parse(DeviceVersion(device.version)).Some?
    requires Parse(DeviceVersion(device.version)) == Parse(Available(envelope).value)
    ensures Offered(device, envelope) <==>
            && device.envHash.Some? && device.envHash.value != "" && !("cafebabe" <= device.envHash.value)
            && envelope.value.envHash.Some? && envelope.value.envHash.value != ""
            && forall i :: 0 <= i <= |device.envHash.value| ==>
              !(envelope.value.envHash.value <= device.envHash.value[i..])
  {
    var mine := Parse(DeviceVersion(device.version)).value;
    PrecedenceIsTotal(mine, mine);
    if device.envHash.Some? && envelope.value.envHash.Some? {
      ContainsIff(device.envHash.value, envelope.value.envHash.value);
    }
  }

  // ---------------------------------------------------------------- texts of numbers

  lemma HeadsJoin(x: char, parts: seq<string>, more: seq<string>)
    requires parts != []
    ensures (parts + more)[0] == parts[0] && (parts + more)[1..] == parts[1..] + more
    ensures [[x] + parts[0]] + (parts[1..] + more) == ([[x] + parts[0]] + parts[1..]) + more
    ensures [""] + (parts + more) == ([""] + parts) + more
  {
  }

  lemma {:induction false} SplitAppend(w: string, c: char, rest: string)
    ensures SplitOn(w + ([c] + rest), c) == SplitOn(w, c) + SplitOn(rest, c)
  {
    var s := w + ([c] + rest);
    if w == "" {
      assert s == [c] + rest && s[1..] == rest;
    } else {
      var t := w[1..] + ([c] + rest);
      assert s[1..] == t && s[0] == w[0];
      SplitAppend(w[1..], c, rest);
      HeadsJoin(w[0], SplitOn(w[1..], c), SplitOn(rest, c));
    }
  }

  /** Without signs, a plain version is three numbers. */
  lemma PlainWithoutSigns(u: string)
    requires Lacks(u, '+') && Lacks(u, '-')
    ensures var main := SplitOn(u, '.');
      ParsePlain(u) == if AreMain(main) then Some(Version(Number(main[0]), Number(main[1]), Number(main[2]), []))
        else None
  {
    assert FirstIndex(u, '+') == |u| && u[..|u|] == u;
    assert FirstIndex(u, '-') == |u|;
  }

  lemma DigitsLack(n: nat, c: char)
    requires !IsDigit(c)
    ensures Lacks(Digits(n), c)
  {
    NumberOfDigits(n);
  }

  lemma TripleSplits(t: (nat, nat, nat))
    ensures SplitOn(Triple(t), '.') == [Digits(t.0), Digits(t.1), Digits(t.2)]
  {
    DigitsLack(t.0, '.');
    DigitsLack(t.1, '.');
    DigitsLack(t.2, '.');
    var last := Digits(t.1) + (['.'] + Digits(t.2));
    SplitHead(Digits(t.0), '.', last);
    SplitHead(Digits(t.1), '.', Digits(t.2));
    SplitWhole(Digits(t.2), '.');
  }

  predicate DigitsAndDots(s: string) { forall i :: 0 <= i < |s| ==> IsDigit(s[i]) || s[i] == '.' }

  lemma DigitsAndDotsJoin(a: string, b: string)
    requires DigitsAndDots(a) && DigitsAndDots(b)
    ensures DigitsAndDots(a + b)
  {
  }

  lemma TripleChars(t: (nat, nat, nat))
    ensures DigitsAndDots(Triple(t))
  {
    NumberOfDigits(t.0);
    NumberOfDigits(t.1);
    NumberOfDigits(t.2);
    DigitsAndDotsJoin(['.'], Digits(t.2));
    DigitsAndDotsJoin(Digits(t.1), ['.'] + Digits(t.2));
    DigitsAndDotsJoin(['.'], Digits(t.1) + (['.'] + Digits(t.2)));
    DigitsAndDotsJoin(Digits(t.0), ['.'] + (Digits(t.1) + (['.'] + Digits(t.2))));
  }

  lemma PlainText(s: string)
    requires s != "" && DigitsAndDots(s)
    ensures StripV(Trim(s)) == s && Lacks(s, '+') && Lacks(s, '-')
  {
    assert TrimEnd(s) == s && TrimStart(s) == s;
  }

  /** A printed triple, when valid, is read back as that triple. */
  lemma TripleReads(t: (nat, nat, nat))
    requires Parse(Triple(t)).Some?
    ensures Parse(Triple(t)) == Some(Version(t.0, t.1, t.2, []))
  {
    TripleChars(t);
    PlainText(Triple(t));
    PlainWithoutSigns(Triple(t));
    TripleSplits(t);
    NumberOfDigits(t.0);
    NumberOfDigits(t.1);
    NumberOfDigits(t.2);
  }

  // ---------------------------------------------------------------- texts without signs

  /** No sign, so no prerelease and no build. */
  predicate Unsigned(s: string) { Lacks(s, '+') && Lacks(s, '-') }

  lemma {:induction false} TrimStartIsSuffix(s: string)
    ensures |TrimStart(s)| <= |s| && TrimStart(s) == s[|s| - |TrimStart(s)|..]
  {
    if s != "" && IsSpace(s[0]) {
      TrimStartIsSuffix(s[1..]);
    }
  }

  lemma {:induction false} TrimStartKeepsSigns(s: string)
    ensures Unsigned(TrimStart(s)) <==> Unsigned(s)
  {
    if s != "" && IsSpace(s[0]) {
      TrimStartKeepsSigns(s[1..]);
      assert forall i :: 0 < i < |s| ==> s[i] == s[1..][i - 1];
    }
  }

  lemma {:induction false} TrimStartKeepsParts(s: string)
    ensures |SplitOn(TrimStart(s), '.')| == |SplitOn(s, '.')|
  {
    if s != "" && IsSpace(s[0]) {
      TrimStartKeepsParts(s[1..]);
    }
  }

  lemma TrimStartKeeps(s: string)
    ensures |TrimStart(s)| <= |s| && TrimStart(s) == s[|s| - |TrimStart(s)|..]
    ensures Unsigned(TrimStart(s)) <==> Unsigned(s)
    ensures |SplitOn(TrimStart(s), '.')| == |SplitOn(s, '.')|
  {
    TrimStartIsSuffix(s);
    TrimStartKeepsSigns(s);
    TrimStartKeepsParts(s);
  }

  lemma {:induction false} SplitLast(s: string, x: char)
    requires x != '.'
    ensures |SplitOn(s + [x], '.')| == |SplitOn(s, '.')|
  {
    if s == "" {
      assert (s + [x])[1..] == "";
    } else {
      assert (s + [x])[1..] == s[1..] + [x];
      SplitLast(s[1..], x);
    }
  }

  lemma {:induction false} TrimEndKeepsParts(s: string)
    ensures TrimEnd(s) <= s
    ensures Unsigned(TrimEnd(s)) ==> Unsigned(s)
    ensures Unsigned(s) ==> Unsigned(TrimEnd(s))
    ensures |SplitOn(TrimEnd(s), '.')| == |SplitOn(s, '.')|
  {
    if s != "" && IsSpace(s[|s| - 1]) {
      var t := s[..|s| - 1];
      TrimEndKeepsParts(t);
      assert s == t + [s[|s| - 1]];
      SplitLast(t, s[|s| - 1]);
    }
  }

  lemma TrimKeepsParts(s: string)
    ensures Unsigned(Trim(s)) <==> Unsigned(s)
    ensures |SplitOn(Trim(s), '.')| == |SplitOn(s, '.')|
  {
    TrimEndKeepsParts(s);
    TrimStartKeeps(TrimEnd(s));
  }

  lemma StripVKeepsParts(s: string)
    ensures Unsigned(StripV(s)) <==> Unsigned(s)
    ensures |SplitOn(StripV(s), '.')| == |SplitOn(s, '.')|
  {
    if s != "" && s[0] == 'v' {
      assert s == [s[0]] + s[1..];
    }
  }

  /** A valid version without signs has three parts, all of them numbers. */
  lemma UnsignedVersion(s: string)
    requires Unsigned(s) && Parse(s).Some?
    ensures |SplitOn(s, '.')| == 3
    ensures var main := SplitOn(StripV(Trim(s)), '.');
      AreMain(main) && Parse(s) == Some(Version(Number(main[0]), Number(main[1]), Number(main[2]), []))
  {
    TrimKeepsParts(s);
    StripVKeepsParts(Trim(s));
    PlainWithoutSigns(StripV(Trim(s)));
  }

  lemma {:induction false} PartsAreUnsigned(s: string)
    requires forall i :: 0 <= i < |SplitOn(s, '.')| ==> Unsigned(SplitOn(s, '.')[i])
    ensures Unsigned(s)
  {
    JoinSplit(s, '.');
    JoinLacks(SplitOn(s, '.'), ".", '+');
    JoinLacks(SplitOn(s, '.'), ".", '-');
  }

  /** A report whose tag is numbers holds no sign. */
  lemma NumbersAreUnsigned(report: string)
    requires AreNumbers(SplitOn(StripAnyV(Trim(report)), '.'))
    ensures Unsigned(report)
  {
    var t := Trim(report);
    var u := StripAnyV(t);
    assert forall i :: 0 <= i < |SplitOn(u, '.')| ==> Unsigned(SplitOn(u, '.')[i]);
    PartsAreUnsigned(u);
    assert Unsigned(t) by {
      if u != t { assert t == [t[0]] + u; }
    }
    TrimKeepsParts(report);
  }

  // ---------------------------------------------------------------- a device that reports the tag

  predicate DigitsOnly(s: string) {
    s != "" && forall i :: 0 <= i < |s| ==> !IsSpace(s[i]) && s[i] != 'v' && s[i] != 'V'
  }

  lemma {:induction false} MainIsDigits(w: string)
    requires forall i :: 0 <= i < |SplitOn(w, '.')| ==> IsNumericId(SplitOn(w, '.')[i])
    ensures DigitsOnly(w)
  {
    var parts := SplitOn(w, '.');
    JoinSplit(w, '.');
    assert w != "" by { assert IsNumericId(parts[0]); }
    forall c: char | IsSpace(c) || c == 'v' || c == 'V' ensures Lacks(w, c) {
      forall i | 0 <= i < |parts| ensures Lacks(parts[i], c) { assert IsNumericId(parts[i]); }
      JoinLacks(parts, ".", c);
    }
    forall i | 0 <= i < |w| ensures !IsSpace(w[i]) && w[i] != 'v' && w[i] != 'V' {
      if IsSpace(w[i]) || w[i] == 'v' || w[i] == 'V' {
        assert Lacks(w, w[i]);
      }
    }
  }

  /** Once trimmed at the start and without its v a text is digits and dots: trimming its end and
      accepting a capital V change nothing. */
  lemma SameTag(report: string)
    requires DigitsOnly(StripV(TrimStart(report)))
    ensures StripAnyV(Trim(report)) == StripV(TrimStart(report))
  {
    var y := TrimStart(report);
    var w := StripV(y);
    TrimStartKeeps(report);
    assert y[|y| - 1] == w[|w| - 1];
    assert report[|report| - 1] == y[|y| - 1];
    assert TrimEnd(report) == report;
    assert w[0] != 'V' && w[0] != 'v';
  }

  lemma {:induction false} TrimStartAppend(s: string, pad: string)
    requires pad != "" && !IsSpace(pad[0])
    ensures TrimStart(s + pad) == TrimStart(s) + pad
  {
    if s == "" {
      assert s + pad == pad;
    } else if IsSpace(s[0]) {
      assert (s + pad)[1..] == s[1..] + pad;
      TrimStartAppend(s[1..], pad);
    }
  }

  lemma PaddedTrim(report: string, pad: string)
    requires pad != "" && pad[0] == '.' && !IsSpace(pad[|pad| - 1])
    ensures StripV(Trim(report + pad)) == StripV(TrimStart(report)) + pad
  {
    assert (report + pad)[|report + pad| - 1] == pad[|pad| - 1];
    assert TrimEnd(report + pad) == report + pad;
    TrimStartAppend(report, pad);
    var y := TrimStart(report);
    if y != "" && y[0] == 'v' {
      assert (y + pad)[1..] == y[1..] + pad;
    }
  }

  /** Three numbers of which the last are added zeros: the others are those of the tag. */
  lemma ZeroParts(w: string, zeros: seq<string>, main: seq<string>)
    requires main == SplitOn(w, '.') + zeros && AreMain(main) && (zeros == ["0"] || zeros == ["0", "0"])
    ensures DigitsOnly(w) && AreNumbers(SplitOn(w, '.')) && |SplitOn(w, '.')| == 3 - |zeros|
    ensures Number(main[0]) == Number(SplitOn(w, '.')[0]) && Number(main[2]) == 0
    ensures Number(main[1]) == if |zeros| == 1 then Number(SplitOn(w, '.')[1]) else 0
  {
    var parts := SplitOn(w, '.');
    forall i | 0 <= i < |parts| ensures IsNumericId(parts[i]) { assert main[i] == parts[i]; }
    MainIsDigits(w);
    assert main[2] == "0" && Number("0") == 0 by { assert "0"[..0] == ""; }
  }

  predicate IsPad(zeros: seq<string>, pad: string) {
    (zeros == ["0"] && pad == ['.'] + "0") || (zeros == ["0", "0"] && pad == ['.'] + ("0" + (['.'] + "0")))
  }

  lemma PadEnds(zeros: seq<string>, pad: string)
    requires IsPad(zeros, pad)
    ensures pad != "" && pad[0] == '.' && !IsSpace(pad[|pad| - 1])
  {
    assert pad[|pad| - 1] == '0';
  }

  lemma ZerosSplit(w: string, zeros: seq<string>, pad: string)
    requires IsPad(zeros, pad)
    ensures SplitOn(w + pad, '.') == SplitOn(w, '.') + zeros
  {
    SplitWhole("0", '.');
    if |zeros| == 1 {
      SplitAppend(w, '.', "0");
    } else {
      SplitHead("0", '.', "0");
      SplitAppend(w, '.', "0" + (['.'] + "0"));
    }
  }

  /** The report with one or two zero parts added, when valid, is the tag's version. */
  lemma ZeroPadded(report: string, zeros: seq<string>, pad: string, padded: string)
    requires IsPad(zeros, pad) && padded == report + pad && Unsigned(padded) && Parse(padded).Some?
    ensures var parts := SplitOn(StripAnyV(Trim(report)), '.');
      && |parts| == 3 - |zeros| && AreNumbers(parts)
      && Parse(padded) == Some(Version(Number(parts[0]), if |zeros| == 1 then Number(parts[1]) else 0, 0, []))
  {
    var w := StripV(TrimStart(report));
    UnsignedVersion(padded);
    PadEnds(zeros, pad);
    PaddedTrim(report, pad);
    ZerosSplit(w, zeros, pad);
    ZeroParts(w, zeros, SplitOn(w + pad, '.'));
    SameTag(report);
  }

  /** The tag's version, once collapsed. */
  function TagVersion(parts: seq<string>): Version
    requires parts != [] && AreNumbers(parts)
  {
    var t := Collapsed(Numbers(parts)); Version(t.0, t.1, t.2, [])
  }

  lemma PaddedParts(segments: seq<string>)
    ensures |Padded(segments)| == 3 ==> |segments| <= 3
    ensures |segments| <= 3 ==> Padded(segments) == segments + ["0", "0", "0"][|segments|..]
    ensures forall i :: 0 <= i < |Padded(segments)| ==> Padded(segments)[i] == if i < |segments| then segments[i]
      else "0"
  {
  }

  /** The padded report has as many parts as were kept, none with a sign. */
  lemma PaddedIsUnsigned(report: string)
    requires Unsigned(report)
    ensures var text := Join(Padded(SplitOn(report, '.')), ".");
      Unsigned(text) && SplitOn(text, '.') == Padded(SplitOn(report, '.'))
  {
    var parts := Padded(SplitOn(report, '.'));
    PaddedParts(SplitOn(report, '.'));
    SplitLacks(report, '.', '+');
    SplitLacks(report, '.', '-');
    forall i | 0 <= i < |parts| ensures Unsigned(parts[i]) && Lacks(parts[i], '.') {
    }
    JoinLacks(parts, ".", '+');
    JoinLacks(parts, ".", '-');
    SplitJoin(parts, '.');
  }

  lemma JoinThree(a: string, b: string, c: string)
    ensures Join([a, b, c], ".") == (a + ("." + b)) + (['.'] + c)
  {
    assert [a, b, c][1..] == [b, c] && [b, c][1..] == [c];
    assert "." == ['.'];
    assert Join([b, c], ".") == b + ("." + c);
    assert (a + ("." + b)) + ("." + c) == a + ("." + (b + ("." + c)));
  }

  lemma JoinTwo(a: string, b: string)
    ensures Join([a, b], ".") == a + ("." + b)
  {
    assert [a, b][1..] == [b];
  }

  lemma PadOne(report: string, segments: seq<string>)
    requires segments == SplitOn(report, '.') && |segments| == 1
    ensures Join(Padded(segments), ".") == report + (['.'] + ("0" + (['.'] + "0")))
  {
    JoinSplit(report, '.');
    PaddedParts(segments);
    assert Padded(segments) == [report, "0", "0"];
    JoinThree(report, "0", "0");
  }

  lemma PadTwo(report: string, segments: seq<string>)
    requires segments == SplitOn(report, '.') && |segments| == 2
    ensures Join(Padded(segments), ".") == report + (['.'] + "0")
  {
    JoinSplit(report, '.');
    PaddedParts(segments);
    assert segments == [segments[0], segments[1]];
    JoinTwo(segments[0], segments[1]);
    assert Padded(segments) == [segments[0], segments[1], "0"];
    JoinThree(segments[0], segments[1], "0");
  }

  lemma PadNone(report: string, segments: seq<string>)
    requires segments == SplitOn(report, '.') && |segments| == 3
    ensures Join(Padded(segments), ".") == report
  {
    JoinSplit(report, '.');
    PaddedParts(segments);
    assert Padded(segments) == segments;
  }

  /** A report that is not a version but whose tag is numbers either cannot be compared or is
      read as the tag's own version. */
  lemma IncompleteReport(report: string)
    requires Parse(report).None? && AreNumbers(SplitOn(StripAnyV(Trim(report)), '.'))
    requires Parse(DeviceVersion(Some(report))).Some?
    ensures Parse(DeviceVersion(Some(report))) == Some(TagVersion(SplitOn(StripAnyV(Trim(report)), '.')))
  {
    var segments := SplitOn(report, '.');
    var text := Join(Padded(segments), ".");
    NumbersAreUnsigned(report);
    PaddedIsUnsigned(report);
    UnsignedVersion(text);
    PaddedParts(segments);
    if |segments| == 3 {
      PadNone(report, segments);
    } else if |segments| == 2 {
      PadTwo(report, segments);
      ZeroPadded(report, ["0"], ['.'] + "0", text);
    } else {
      PadOne(report, segments);
      ZeroPadded(report, ["0", "0"], ['.'] + ("0" + (['.'] + "0")), text);
    }
  }

  /** A report that is a version and whose tag is numbers is the tag's own version. */
  lemma CompleteReport(report: string)
    requires Parse(report).Some? && AreNumbers(SplitOn(StripAnyV(Trim(report)), '.'))
    ensures Parse(report) == Some(TagVersion(SplitOn(StripAnyV(Trim(report)), '.')))
  {
    NumbersAreUnsigned(report);
    UnsignedVersion(report);
    var main := SplitOn(StripV(Trim(report)), '.');
    forall i | 0 <= i < 3 ensures IsNumericId(main[i]) { }
    MainIsDigits(StripV(Trim(report)));
    assert StripV(Trim(report)) == StripAnyV(Trim(report));
  }

  // ---------------------------------------------------------------- no endless reflash

  /** A device that runs the build and says so, with the build's own environment hash. */
  function Running(report: string, hash: Option<string>): Device { Device(Some(report), hash) }

  lemma SameHashIsUnchanged(hash: Option<string>)
    ensures !EnvironmentChanged(hash, hash)
  {
  }

  /** Main result: a device that reports the part of the envelope's version after its last colon,
      with the envelope's environment hash, is never offered that build again. */
  lemma TagReportIsNotOffered(version: string, hash: Option<string>)
    ensures !Offered(Running(AfterColon(version), hash), Some(Envelope(Some(version), hash)))
  {
    var report := AfterColon(version);
    SameHashIsUnchanged(hash);
    if Parse(version).Some? {
      ValidChars(version);
      PrecedenceIsTotal(Parse(version).value, Parse(version).value);
    } else if FixAvailable(version).Some? && Parse(DeviceVersion(Some(report))).Some? {
      TripleReads(Collapsed(Numbers(TagParts(version))));
      if Parse(report).Some? {
        CompleteReport(report);
      } else {
        IncompleteReport(report);
      }
      var mine := Parse(DeviceVersion(Some(report))).value;
      PrecedenceIsTotal(mine, mine);
    }
  }

  /** Nothing is left of the colon in the parts a device's version is cut down to. */
  predicate ColonCutOff(version: string) {
    !Lacks(version, ':') && forall i :: 0 <= i < |FirstSegments(SplitOn(version, '.'))| ==>
      Lacks(FirstSegments(SplitOn(version, '.'))[i], ':')
  }

  lemma {:induction false} LacksJoin(parts: seq<string>, sep: string, c: char)
    requires Lacks(Join(parts, sep), c)
    ensures forall i :: 0 <= i < |parts| ==> Lacks(parts[i], c)
  {
    if |parts| > 1 {
      var j := Join(parts, sep);
      assert j == parts[0] + (sep + Join(parts[1..], sep));
      assert forall k :: 0 <= k < |parts[0]| ==> parts[0][k] == j[k];
      forall k | 0 <= k < |Join(parts[1..], sep)| ensures Join(parts[1..], sep)[k] != c {
        assert Join(parts[1..], sep)[k] == j[|parts[0]| + |sep| + k];
      }
      LacksJoin(parts[1..], sep, c);
    }
  }

  lemma ColonIsNoVersion(version: string)
    requires !Lacks(version, ':') && Parse(DeviceVersion(Some(version))).Some?
    ensures ColonCutOff(version)
  {
    if Parse(version).Some? {
      ValidChars(version);
    } else {
      var segments := SplitOn(version, '.');
      ValidChars(Join(Padded(segments), "."));
      LacksJoin(Padded(segments), ".", ':');
      forall i | 0 <= i < |FirstSegments(segments)| ensures Lacks(FirstSegments(segments)[i], ':') {
        assert Padded(segments)[i] == FirstSegments(segments)[i];
      }
    }
  }

  /** What a device that reports the envelope's whole version is taken to run, when the colon is
      cut off, is older than what the envelope stands for. */
  predicate CutsToOlder(version: string) {
    var mine, text := Parse(DeviceVersion(Some(version))), FixAvailable(version);
    ColonCutOff(version) && mine.Some? && text.Some? && Parse(text.value).Some? &&
      Below(mine.value, Parse(text.value).value)
  }

  /** A step: a device that reports the envelope's whole version is offered the build again exactly
      when its first eight parts leave out every colon and make an older version. */
  lemma WholeReportIsOfferedIff(version: string, hash: Option<string>)
    ensures Offered(Running(version, hash), Some(Envelope(Some(version), hash))) <==> CutsToOlder(version)
  {
    SameHashIsUnchanged(hash);
    if Lacks(version, ':') {
      TagReportIsNotOffered(version, hash);
    } else if Parse(DeviceVersion(Some(version))).Some? {
      ColonIsNoVersion(version);
    }
  }

  lemma UncutColon(version: string)
    requires |SplitOn(version, '.')| <= SEGMENTS
    ensures !ColonCutOff(version)
  {
    var segments := SplitOn(version, '.');
    JoinSplit(version, '.');
    if forall i :: 0 <= i < |segments| ==> Lacks(segments[i], ':') {
      assert "." == ['.'];
      JoinLacks(segments, ".", ':');
    } else {
      var i :| 0 <= i < |segments| && !Lacks(segments[i], ':');
      assert FirstSegments(segments)[i] == segments[i];
    }
  }

  /** With fewer than eight dots before the colon, or no colon, the whole version is safe too. */
  lemma ShortNamesAreSafe(version: string, hash: Option<string>)
    requires |SplitOn(version, '.')| <= 8
    ensures !Offered(Running(version, hash), Some(Envelope(Some(version), hash)))
  {
    WholeReportIsOfferedIff(version, hash);
    UncutColon(version);
  }
}
