/**
 * Two rules of the header checker on whole values and files: when Permissions-Policy features are
 * compared as a set, and what the optional 'unsafe-eval' forgives.
 */
module HeaderRules {
  import opened Wrappers
  import opened Splitting
  import opened StringOrder
  import opened CspPolicy
  import opened HeaderParity
  import opened EvalException

  // ---------------------------------------------------------------- features as a set

  function FeaturesOf(v: string): seq<string> { Features(SplitOn(v, ',')) }

  ghost predicate SameFeatureSet(v: string, w: string) {
    forall f :: f in FeaturesOf(v) <==> f in FeaturesOf(w)
  }

  ghost predicate RepeatsNone(fs: seq<string>) { forall f :: Count(fs, f) <= 1 }

  /** The comparison made: values are equal exactly when they list the same features equally often. */
  lemma ComparedAsCounts(v: string, w: string)
    ensures PermissionsValue(v) == PermissionsValue(w) <==> SameCounts(FeaturesOf(v), FeaturesOf(w))
  {
    PermissionsRead(v);
    PermissionsRead(w);
    SortsAlike(FeaturesOf(v), FeaturesOf(w));
  }

  lemma SameSetWithoutRepeats(v: string, w: string)
    requires RepeatsNone(FeaturesOf(v)) && RepeatsNone(FeaturesOf(w))
    ensures SameCounts(FeaturesOf(v), FeaturesOf(w)) <==> SameFeatureSet(v, w)
  {
    forall f
      ensures Count(FeaturesOf(v), f) == Count(FeaturesOf(w), f) <==> (f in FeaturesOf(v) <==> f in FeaturesOf(w))
    {
      CountMember(FeaturesOf(v), f);
      CountMember(FeaturesOf(w), f);
      assert Count(FeaturesOf(v), f) <= 1 && Count(FeaturesOf(w), f) <= 1;
    }
  }

  lemma {:induction false} FeaturesSplit(fs: seq<string>, gs: seq<string>)
    ensures AreFeatures(fs + gs) <==> AreFeatures(fs) && AreFeatures(gs)
  {
    if fs == [] {
      assert fs + gs == gs;
    } else {
      FeaturesSplit(fs[1..], gs);
      assert (fs + gs)[1..] == fs[1..] + gs;
    }
  }

  lemma {:induction false} DistinctFeatures(fs: seq<string>)
    requires AreFeatures(fs)
    ensures AreFeatures(Distinct(fs))
  {
    if fs != [] {
      var n := |fs| - 1;
      FeaturesSplit(fs[..n], [fs[n]]);
      assert fs == fs[..n] + [fs[n]];
      DistinctFeatures(fs[..n]);
      FeaturesSplit(Distinct(fs[..n]), [fs[n]]);
    }
  }

  /** Every value has one of the same features, each once. */
  lemma OnceEach(v: string) returns (w: string)
    ensures FeaturesOf(w) == Distinct(FeaturesOf(v)) && RepeatsNone(FeaturesOf(w)) && SameFeatureSet(v, w)
  {
    var fs := FeaturesOf(v);
    w := Join(Distinct(fs), ", ");
    FeaturesAreFeatures(SplitOn(v, ','));
    DistinctFeatures(fs);
    FeaturesOfJoin(Distinct(fs), w);
    forall f ensures Count(Distinct(fs), f) <= 1 && (f in Distinct(fs) <==> f in fs) {
      DistinctCounts(fs, f);
      CountMember(Distinct(fs), f);
    }
  }

  /** Main result: a value is compared as a set with every value that repeats no feature exactly
      when it repeats none itself. */
  lemma ComparedAsSetIff(v: string)
    ensures (forall w :: RepeatsNone(FeaturesOf(w)) ==>
               (PermissionsValue(v) == PermissionsValue(w) <==> SameFeatureSet(v, w)))
       <==> RepeatsNone(FeaturesOf(v))
  {
    if RepeatsNone(FeaturesOf(v)) {
      forall w | RepeatsNone(FeaturesOf(w))
        ensures PermissionsValue(v) == PermissionsValue(w) <==> SameFeatureSet(v, w)
      {
        ComparedAsCounts(v, w);
        SameSetWithoutRepeats(v, w);
      }
    } else {
      var w := OnceEach(v);
      ComparedAsCounts(v, w);
      var f :| Count(FeaturesOf(v), f) > 1;
      assert Count(FeaturesOf(w), f) <= 1;
    }
  }

  /** The same set of features, and yet drift. */
  lemma RepeatIsDrift()
    ensures SameFeatureSet("a", "a,a") && PermissionsValue("a") != PermissionsValue("a,a")
  {
    var one, two := ["a"], ["a", "a"];
    assert IsWord("a") && Lacks("a", ',');
    SplitWhole("a", ',');
    SplitHead("a", ',', "a");
    assert "a" + ([','] + "a") == "a,a";
    assert FeaturesOf("a") == one && FeaturesOf("a,a") == two;
    ComparedAsCounts("a", "a,a");
    assert Count(one, "a") == 1 && Count(two, "a") == 2;
  }

  // ---------------------------------------------------------------- the exception on whole files

  /** The policies of two files mean the same, or differ by an 'unsafe-eval' that q's script-src leaves
      out. */
  ghost predicate SamePolicyButEval(p: seq<Header>, q: seq<Header>) {
    match (FirstNamed(p, "content-security-policy"), FirstNamed(q, "content-security-policy"))
    case (Some(x), Some(y)) => SameButEval(x.value, y.value)
    case (x, y) => x == y
  }

  lemma PolicyForgivenIff(p: seq<Header>, q: seq<Header>)
    ensures var a, b := NormalHeaders(p), NormalHeaders(q);
      ValueOf(WithoutOmittedEval(a, b), CSP) == ValueOf(b, CSP) <==> SamePolicyButEval(p, q)
  {
    var a, b := NormalHeaders(p), NormalHeaders(q);
    FirstHeaderWins(p, CSP);
    FirstHeaderWins(q, CSP);
    FirstNamedHasName(p, CSP);
    FirstNamedHasName(q, CSP);
    if FirstNamed(p, CSP).Some? && FirstNamed(q, CSP).Some? {
      var v, w := FirstNamed(p, CSP).value.value, FirstNamed(q, CSP).value.value;
      ExceptionTouchesOneValue(a, b, v, w, CSP);
      ExpectedDecides(v, w);
      ComparedButEval(v, w);
    }
  }

  lemma OthersComparedIff(p: seq<Header>, q: seq<Header>, name: string)
    requires name != CSP
    ensures var a, b := NormalHeaders(p), NormalHeaders(q);
      ValueOf(WithoutOmittedEval(a, b), name) == ValueOf(b, name) <==> SameHeader(p, q, name)
  {
    var a, b := NormalHeaders(p), NormalHeaders(q);
    SameHeaderIff(p, q, name);
    if Find(a, CSP).Some? && Find(b, CSP).Some? {
      FindWithValue(a, CSP, Render(DropEval(CspDirectives(Find(a, CSP).value.value))), name);
    }
  }

  /** Main result: with the exception on, two files drift nowhere exactly when their policies are the
      same but for an omitted 'unsafe-eval', and every other header means the same in both. */
  lemma ForgivenIffOnlyEvalOmitted(p: seq<Header>, q: seq<Header>)
    ensures var a, b := NormalHeaders(p), NormalHeaders(q);
      Drift(WithoutOmittedEval(a, b), b) == []
      <==> SamePolicyButEval(p, q) && forall name :: name != "content-security-policy" ==> SameHeader(p, q, name)
  {
    var a, b := NormalHeaders(p), NormalHeaders(q);
    var a' := WithoutOmittedEval(a, b);
    NoDriftIffSameValues(a', b);
    PolicyForgivenIff(p, q);
    forall name | name != CSP ensures ValueOf(a', name) == ValueOf(b, name) <==> SameHeader(p, q, name) {
      OthersComparedIff(p, q, name);
    }
  }
}
