/**
 * What a tag of numbers stands for whatever the firmware's name, and the firmware names for which
 * a device that reports the envelope's whole version is offered the same build for ever.
 *
 * Take the firmware "1.2.3-a.b.c.d.e.f.g" with the tag "5". The envelope says
 * "1.2.3-a.b.c.d.e.f.g:5", which stands for 5.0.0, as only the part after the last colon counts.
 * A device that reports the same text has only its first eight dot-separated parts kept, which
 * leaves "1.2.3-a.b.c.d.e.f": a valid version, and older than 5.0.0.
 */
module EndlessOffer {
  import opened Wrappers
  import opened JsText
  import opened Splitting
  import opened SemVer
  import opened UpdateOffer

  lemma {:induction false} AfterColonAppend(s: string, tail: string)
    requires Lacks(tail, ':')
    ensures AfterColon(s + ([':'] + tail)) == tail
  {
    var whole := s + ([':'] + tail);
    if tail == "" {
      assert whole[|whole| - 1] == ':';
    } else {
      var n := |tail| - 1;
      assert whole[..|whole| - 1] == s + ([':'] + tail[..n]);
      AfterColonAppend(s, tail[..n]);
      assert tail == tail[..n] + [tail[n]];
    }
  }

  // ---------------------------------------------------------------- plain tags

  function Power(k: nat): nat { if k == 0 then 1 else 10 * Power(k - 1) }

  lemma {:induction false} DigitsLength(n: nat, k: nat)
    requires n < Power(k) && k > 0
    ensures |Digits(n)| <= k
  {
    if n >= 10 {
      assert Power(1) == 10 * Power(0) == 10;
      DigitsLength(n / 10, k - 1);
    }
  }

  lemma DigitsAreShort(n: nat)
    requires n <= MAX_SAFE_INTEGER
    ensures |Digits(n)| <= 16
  {
    assert Power(2) == 100;
    assert Power(4) == 10000;
    assert Power(6) == 1000000;
    assert Power(8) == 100000000;
    assert Power(10) == 10000000000;
    assert Power(12) == 1000000000000;
    assert Power(14) == 100000000000000;
    assert Power(16) == 10000000000000000;
    DigitsLength(n, 16);
  }

  lemma DigitsAreNumericId(n: nat)
    requires n <= MAX_SAFE_INTEGER
    ensures IsNumericId(Digits(n)) && Number(Digits(n)) == n && |Digits(n)| <= 16
  {
    NumberOfDigits(n);
    DigitsAreShort(n);
  }

  lemma TripleIsValid(t: (nat, nat, nat))
    requires t.0 <= MAX_SAFE_INTEGER && t.1 <= MAX_SAFE_INTEGER && t.2 <= MAX_SAFE_INTEGER
    ensures Parse(Triple(t)).Some? && |Triple(t)| <= 50
  {
    DigitsAreNumericId(t.0);
    DigitsAreNumericId(t.1);
    DigitsAreNumericId(t.2);
    TripleChars(t);
    PlainText(Triple(t));
    PlainWithoutSigns(Triple(t));
    TripleSplits(t);
  }

  lemma ColonIsInvalid(version: string, i: nat)
    requires i < |version| && version[i] == ':'
    ensures Parse(version).None?
  {
    if Parse(version).Some? { ValidChars(version); }
  }

  function Printed(ns: seq<nat>): seq<string> { seq(|ns|, i requires 0 <= i < |ns| => Digits(ns[i])) }

  lemma {:induction false} JoinDigits(parts: seq<string>)
    requires AreNumbers(parts) && parts != []
    ensures Join(parts, ".") != "" && DigitsAndDots(Join(parts, "."))
  {
    if |parts| > 1 {
      JoinDigits(parts[1..]);
      DigitsAndDotsJoin(".", Join(parts[1..], "."));
      DigitsAndDotsJoin(parts[0], "." + Join(parts[1..], "."));
    }
  }

  lemma PrintedAreNumbers(ns: seq<nat>)
    ensures AreNumbers(Printed(ns)) && Numbers(Printed(ns)) == ns
  {
    forall i | 0 <= i < |ns| ensures AllDigits(Digits(ns[i])) && Digits(ns[i]) != "" && Number(Digits(ns[i])) == ns[i] {
      NumberOfDigits(ns[i]);
    }
  }

  lemma PrintedIsTheTag(parts: seq<string>, tag: string)
    requires AreNumbers(parts) && parts != [] && tag == Join(parts, ".")
    ensures SplitOn(StripAnyV(Trim(tag)), '.') == parts && Lacks(tag, ':')
  {
    JoinDigits(parts);
    assert TrimEnd(tag) == tag && TrimStart(tag) == tag && StripAnyV(tag) == tag;
    assert "." == ['.'];
    SplitJoin(parts, '.');
  }

  /** Whatever the firmware's name, a tag of numbers stands for their collapsed triple, when that
      is a version at all. */
  lemma TagCollapses(name: string, ns: seq<nat>, version: string)
    requires ns != [] && version == name + ([':'] + Join(Printed(ns), "."))
    ensures FixAvailable(version) ==
            if Parse(Triple(Collapsed(ns))).Some? then Some(Triple(Collapsed(ns))) else None
  {
    PrintedAreNumbers(ns);
    PrintedIsTheTag(Printed(ns), Join(Printed(ns), "."));
    AfterColonAppend(name, Join(Printed(ns), "."));
    ColonIsInvalid(version, |name|);
  }

  /** A plain tag n stands for the version n.0.0. */
  lemma PlainTag(name: string, n: nat, version: string)
    requires n <= MAX_SAFE_INTEGER && version == name + ([':'] + Digits(n))
    ensures FixAvailable(version) == Some(Triple((n, 0, 0))) && Parse(Triple((n, 0, 0))) == Some(Version(n, 0, 0, []))
  {
    assert Join(Printed([n]), ".") == Digits(n);
    TagCollapses(name, [n], version);
    TripleIsValid((n, 0, 0));
    TripleReads((n, 0, 0));
  }

  // ---------------------------------------------------------------- the family

  lemma CutReport(older: string, rest: string, version: string)
    requires |SplitOn(older, '.')| == SEGMENTS && Parse(version).None? && version == older + (['.'] + rest)
    ensures DeviceVersion(Some(version)) == older
  {
    SplitAppend(older, '.', rest);
    assert FirstSegments(SplitOn(version, '.')) == SplitOn(older, '.');
    JoinSplit(older, '.');
    assert "." == ['.'];
  }

  lemma NameParts(older: string, more: string, tag: string)
    ensures var version := (older + (['.'] + more)) + ([':'] + tag);
      && version == older + (['.'] + (more + ([':'] + tag)))
      && |older| + 1 + |more| < |version| && version[|older| + 1 + |more|] == ':'
  {
  }

  lemma OlderIsOffered(older: string, version: string, text: string, hash: Option<string>)
    requires DeviceVersion(Some(version)) == older && FixAvailable(version) == Some(text)
    requires Parse(older).Some? && Parse(text).Some? && Parse(older).value.major < Parse(text).value.major
    ensures Offered(Running(version, hash), Some(Envelope(Some(version), hash)))
  {
  }

  /** Main result: a firmware named by an older version of eight parts, one more part, and a newer
      plain tag is offered for ever to a device that reports that name and tag. */
  lemma OlderNameIsReflashed(older: string, more: string, n: nat, hash: Option<string>, version: string)
    requires Parse(older).Some? && |SplitOn(older, '.')| == 8 && Parse(older).value.major < n <= 9007199254740991
    requires version == (older + (['.'] + more)) + ([':'] + Digits(n))
    ensures Offered(Running(version, hash), Some(Envelope(Some(version), hash)))
  {
    var rest := more + ([':'] + Digits(n));
    NameParts(older, more, Digits(n));
    PlainTag(older + (['.'] + more), n, version);
    ColonIsInvalid(version, |older| + 1 + |more|);
    CutReport(older, rest, version);
    OlderIsOffered(older, version, Triple((n, 0, 0)), hash);
  }

  // ---------------------------------------------------------------- exactly which versions

  /** The three numbers of a version, and no prerelease, are above another version. */
  predicate TripleAbove(t: (nat, nat, nat), v: Version) {
    || v.major < t.0
    || (v.major == t.0 && v.minor < t.1)
    || (v.major == t.0 && v.minor == t.1 && v.patch < t.2)
    || (v.major == t.0 && v.minor == t.1 && v.patch == t.2 && v.pre != [])
  }

  /** The version is split at its eighth dot: before it a version without a colon, after it a colon
      and a tag of numbers, whose collapsed triple is a version above the one before. */
  ghost predicate SplitsBelow(version: string, older: string, rest: string) {
    && version == older + (['.'] + rest) && |SplitOn(older, '.')| == 8
    && Lacks(older, ':') && !Lacks(rest, ':') && Parse(older).Some?
    && AreNumbers(TagParts(version))
    && var t := Collapsed(Numbers(TagParts(version)));
       t.0 <= 9007199254740991 && t.1 <= 9007199254740991 && t.2 <= 9007199254740991 &&
         TripleAbove(t, Parse(older).value)
  }

  lemma TripleNumbers(t: (nat, nat, nat))
    requires Parse(Triple(t)).Some?
    ensures t.0 <= MAX_SAFE_INTEGER && t.1 <= MAX_SAFE_INTEGER && t.2 <= MAX_SAFE_INTEGER
  {
    TripleChars(t);
    PlainText(Triple(t));
    PlainWithoutSigns(Triple(t));
    TripleSplits(t);
    NumberOfDigits(t.0);
    NumberOfDigits(t.1);
    NumberOfDigits(t.2);
  }

  lemma TripleIsValidIff(t: (nat, nat, nat))
    ensures Parse(Triple(t)).Some? <==> t.0 <= MAX_SAFE_INTEGER && t.1 <= MAX_SAFE_INTEGER && t.2 <= MAX_SAFE_INTEGER
  {
    if Parse(Triple(t)).Some? {
      TripleNumbers(t);
    } else if t.0 <= MAX_SAFE_INTEGER && t.1 <= MAX_SAFE_INTEGER && t.2 <= MAX_SAFE_INTEGER {
      TripleIsValid(t);
    }
  }

  lemma JoinGroup(a: string, b: string, c: string)
    ensures a + ("." + (b + (['.'] + c))) == (a + ("." + b)) + (['.'] + c)
  {
  }

  /** Parts joined are the first of them, a separator, and the rest of them. */
  lemma {:induction false} JoinCut(parts: seq<string>, n: nat)
    requires 0 < n < |parts|
    ensures Join(parts, ".") == Join(parts[..n], ".") + (['.'] + Join(parts[n..], "."))
  {
    if n == 1 {
      assert parts[1..] == parts[n..] && Join(parts[..1], ".") == parts[0] && "." == ['.'];
    } else {
      JoinCut(parts[1..], n - 1);
      assert parts[1..][..n - 1] == parts[..n][1..] && parts[1..][n - 1..] == parts[n..];
      JoinGroup(parts[0], Join(parts[..n][1..], "."), Join(parts[n..], "."));
    }
  }

  lemma LacksBoth(older: string, rest: string)
    ensures Lacks(older, ':') && Lacks(rest, ':') ==> Lacks(older + (['.'] + rest), ':')
  {
  }

  /** The text up to the eighth dot, and what follows it. */
  lemma CutAtEighth(version: string) returns (older: string, rest: string)
    requires ColonCutOff(version)
    ensures version == older + (['.'] + rest) && |SplitOn(older, '.')| == SEGMENTS && Lacks(older, ':') &&
      !Lacks(rest, ':')
  {
    var segments := SplitOn(version, '.');
    if |segments| <= SEGMENTS {
      UncutColon(version);
      assert false;
    }
    JoinSplit(version, '.');
    assert "." == ['.'];
    JoinCut(segments, SEGMENTS);
    older, rest := Join(segments[..SEGMENTS], "."), Join(segments[SEGMENTS..], ".");
    SplitJoin(segments[..SEGMENTS], '.');
    assert FirstSegments(segments) == segments[..SEGMENTS];
    JoinLacks(FirstSegments(segments), ".", ':');
    LacksBoth(older, rest);
  }

  lemma BelowIffTriple(t: (nat, nat, nat), v: Version)
    ensures Below(v, Version(t.0, t.1, t.2, [])) <==> TripleAbove(t, v)
  {
  }

  /** What a colon in the rest makes of the envelope, and the cut of the report. */
  lemma SplitReads(version: string, older: string, rest: string)
    requires version == older + (['.'] + rest) && |SplitOn(older, '.')| == SEGMENTS && !Lacks(rest, ':')
    ensures Parse(version).None? && DeviceVersion(Some(version)) == older
  {
    var i :| 0 <= i < |rest| && rest[i] == ':';
    assert version[|older| + 1 + i] == ':';
    ColonIsInvalid(version, |older| + 1 + i);
    CutReport(older, rest, version);
  }

  lemma SplitIsOffered(version: string, hash: Option<string>, older: string, rest: string)
    requires SplitsBelow(version, older, rest)
    ensures Offered(Running(version, hash), Some(Envelope(Some(version), hash)))
  {
    var t := Collapsed(Numbers(TagParts(version)));
    SplitReads(version, older, rest);
    TripleIsValid(t);
    TripleReads(t);
    BelowIffTriple(t, Parse(older).value);
  }

  lemma OfferedSplits(version: string, hash: Option<string>) returns (older: string, rest: string)
    requires Offered(Running(version, hash), Some(Envelope(Some(version), hash)))
    ensures SplitsBelow(version, older, rest)
  {
    WholeReportIsOfferedIff(version, hash);
    older, rest := CutAtEighth(version);
    SplitReads(version, older, rest);
    var t := Collapsed(Numbers(TagParts(version)));
    TripleIsValidIff(t);
    TripleReads(t);
    BelowIffTriple(t, Parse(older).value);
  }

  /** Main result: a device that reports the envelope's whole version, with the envelope's
      environment hash, is offered the build again exactly when the text before the eighth dot is a
      version, the text after it holds a colon, and the numbers after the last colon collapse to a
      version above it. */
  lemma ReflashedIff(version: string, hash: Option<string>)
    ensures Offered(Running(version, hash), Some(Envelope(Some(version), hash))) <==>
            exists older, rest :: SplitsBelow(version, older, rest)
  {
    if Offered(Running(version, hash), Some(Envelope(Some(version), hash))) {
      var older, rest := OfferedSplits(version, hash);
    } else if exists older, rest :: SplitsBelow(version, older, rest) {
      var older, rest :| SplitsBelow(version, older, rest);
      SplitIsOffered(version, hash, older, rest);
    }
  }

  // ---------------------------------------------------------------- it is not empty

  lemma {:induction false} IndexAt(s: string, c: char, i: nat)
    requires i <= |s| && Lacks(s[..i], c) && (i < |s| ==> s[i] == c)
    ensures FirstIndex(s, c) == i
  {
    if i > 0 {
      assert s[..i][0] == s[0] && s[1..][..i - 1] == s[..i][1..];
      IndexAt(s[1..], c, i - 1);
    }
  }

  lemma {:induction false} SplitGlue(a: string, b: string, c: char)
    ensures |SplitOn(a + b, c)| == |SplitOn(a, c)| + |SplitOn(b, c)| - 1
  {
    if a == "" {
      assert a + b == b;
    } else {
      assert (a + b)[1..] == a[1..] + b;
      SplitGlue(a[1..], b, c);
    }
  }

  lemma PlainEnds(front: string, pre: string, whole: string)
    requires front != "" && IsDigit(front[0]) && pre != "" && !IsSpace(pre[|pre| - 1]) && whole == front + (['-'] + pre)
    ensures StripV(Trim(whole)) == whole
  {
    assert whole[0] == front[0] && whole[|whole| - 1] == pre[|pre| - 1];
    assert TrimEnd(whole) == whole && TrimStart(whole) == whole;
  }

  lemma SignsFound(front: string, pre: string, whole: string)
    requires Unsigned(front) && Lacks(pre, '+') && whole == front + (['-'] + pre)
    ensures FirstIndex(whole, '+') == |whole| && FirstIndex(whole, '-') == |front|
    ensures whole[..|whole|] == whole && whole[..|front|] == front && whole[|front| + 1..] == pre
  {
    assert whole[..|front|] == front;
    assert Lacks(whole, '+');
    IndexAt(whole, '+', |whole|);
    IndexAt(whole, '-', |front|);
  }

  lemma PlainPreRelease(front: string, pre: string, whole: string)
    requires Unsigned(front) && Lacks(pre, '+') && whole == front + (['-'] + pre)
    requires AreMain(SplitOn(front, '.')) && ArePreIds(SplitOn(pre, '.'))
    ensures ParsePlain(whole).Some? && ParsePlain(whole).value.major == Number(SplitOn(front, '.')[0])
  {
    SignsFound(front, pre, whole);
  }

  lemma TripleIsMain(t: (nat, nat, nat))
    requires Parse(Triple(t)).Some?
    ensures Unsigned(Triple(t)) && AreMain(SplitOn(Triple(t), '.')) && Number(SplitOn(Triple(t), '.')[0]) == t.0
    ensures Triple(t) != "" && IsDigit(Triple(t)[0])
  {
    TripleChars(t);
    PlainText(Triple(t));
    PlainWithoutSigns(Triple(t));
    TripleSplits(t);
    NumberOfDigits(t.0);
  }

  /** Three numbers and a prerelease are read as such. */
  lemma PreReleaseReads(front: string, pre: string, whole: string)
    requires Unsigned(front) && AreMain(SplitOn(front, '.')) && front != "" && IsDigit(front[0])
    requires ArePreIds(SplitOn(pre, '.')) && Lacks(pre, '+') && pre != "" && !IsSpace(pre[|pre| - 1])
    requires whole == front + (['-'] + pre) && |whole| <= MAX_LENGTH
    ensures Parse(whole).Some? && Parse(whole).value.major == Number(SplitOn(front, '.')[0])
  {
    PlainEnds(front, pre, whole);
    PlainPreRelease(front, pre, whole);
  }

  lemma AddLetter(a: char, rest: string) returns (text: string)
    requires 'a' <= a <= 'f' && rest != "" && ArePreIds(SplitOn(rest, '.')) && Lacks(rest, '+')
    ensures ArePreIds(SplitOn(text, '.')) && |SplitOn(text, '.')| == 1 + |SplitOn(rest, '.')|
    ensures |text| == |rest| + 2 && text[|text| - 1] == rest[|rest| - 1] && Lacks(text, '+')
  {
    text := [a] + (['.'] + rest);
    SplitHead([a], '.', rest);
    assert IsPreId([a]);
  }

  lemma PartsOfBoth(t: (nat, nat, nat), pre: string)
    ensures |SplitOn(Triple(t) + (['-'] + pre), '.')| == 2 + |SplitOn(pre, '.')|
  {
    TripleSplits(t);
    SplitGlue(Triple(t), ['-'] + pre, '.');
    SplitGlue(['-'], pre, '.');
    SplitWhole(['-'], '.');
  }

  lemma FromLetters(pre: string) returns (older: string)
    requires ArePreIds(SplitOn(pre, '.')) && |SplitOn(pre, '.')| == 6
    requires pre != "" && |pre| < 100 && !IsSpace(pre[|pre| - 1]) && Lacks(pre, '+')
    ensures Parse(older).Some? && |SplitOn(older, '.')| == SEGMENTS && Parse(older).value.major == 1
  {
    var t := (1, 2, 3);
    older := Triple(t) + (['-'] + pre);
    TripleIsValid(t);
    TripleIsMain(t);
    PreReleaseReads(Triple(t), pre, older);
    PartsOfBoth(t, pre);
  }

  /** Such a firmware name exists: 1.2.3-a.b.c.d.e.f is a version of eight parts. */
  lemma OlderNameExists() returns (older: string)
    ensures Parse(older).Some? && |SplitOn(older, '.')| == 8 && Parse(older).value.major == 1
  {
    SplitWhole(['f'], '.');
    assert IsPreId(['f']);
    var pre := AddLetter('e', ['f']);
    pre := AddLetter('d', pre);
    pre := AddLetter('c', pre);
    pre := AddLetter('b', pre);
    pre := AddLetter('a', pre);
    older := FromLetters(pre);
  }
}
