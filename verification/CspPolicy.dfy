/**
 * The normal form of a Content-Security-Policy value: two values have the same normal form
 * exactly when they mean the same, and reading a normal form again changes nothing.
 */
module CspPolicy {
  import opened Splitting
  import opened StringOrder

  // ---------------------------------------------------------------- the script's chain

  datatype Directive = Directive(name: string, sources: seq<string>)

  function LowerChar(c: char): char { if 'A' <= c <= 'Z' then (c as int + 32) as char else c }

  function Lower(s: string): string { if s == "" then "" else [LowerChar(s[0])] + Lower(s[1..]) }

  /** Two letters that differ in case only, of the unaccented ones. */
  predicate SameLetter(x: char, y: char) {
    x == y || ('A' <= x <= 'Z' && y as int == x as int + 32) || ('A' <= y <= 'Z' && x as int == y as int + 32)
  }

  lemma {:induction false} LowerLength(s: string)
    ensures |Lower(s)| == |s|
  {
    if s != "" { LowerLength(s[1..]); }
  }

  /** Names are folded together exactly when they differ in letter case only. */
  lemma {:induction false} LowerFolds(s: string, t: string)
    ensures Lower(s) == Lower(t) <==> |s| == |t| && forall i :: 0 <= i < |s| ==> SameLetter(s[i], t[i])
    decreases |s|
  {
    LowerLength(s);
    LowerLength(t);
    if s != "" && |s| == |t| {
      LowerFolds(s[1..], t[1..]);
      assert Lower(s) == [LowerChar(s[0])] + Lower(s[1..]) && Lower(t) == [LowerChar(t[0])] + Lower(t[1..]);
      assert Lower(s)[1..] == Lower(s[1..]) && Lower(t)[1..] == Lower(t[1..]);
      assert Lower(s)[0] == LowerChar(s[0]) && Lower(t)[0] == LowerChar(t[0]);
      assert forall i :: 0 < i < |s| ==> s[i] == s[1..][i - 1] && t[i] == t[1..][i - 1];
    }
  }

  predicate IsPlaceholder(s: string) { s == "__WEB_HOSTNAME__" || s == "__NGINX_HOST__" }

  function Kept(sources: seq<string>): seq<string> {
    if sources == [] then [] else (if IsPlaceholder(sources[0]) then [] else [sources[0]]) + Kept(sources[1..])
  }

  function Read(parts: seq<string>): seq<Directive> {
    if parts == [] then [] else
      var part := Collapse(parts[0]);
      if part == "" then Read(parts[1..]) else
        var words := SplitOn(part, ' ');
        [Directive(Lower(words[0]), SortStrings(Kept(words[1..])))] + Read(parts[1..])
  }

  /** The stable sort by name puts a directive before the later ones of its name. */
  function InsertDirective(d: Directive, sorted: seq<Directive>): seq<Directive> {
    if sorted == [] then [d]
    else if Less(sorted[0].name, d.name) then [sorted[0]] + InsertDirective(d, sorted[1..])
    else [d] + sorted
  }

  function SortDirectives(ds: seq<Directive>): seq<Directive> {
    if ds == [] then [] else InsertDirective(ds[0], SortDirectives(ds[1..]))
  }

  function CspDirectives(value: string): seq<Directive> { SortDirectives(Read(SplitOn(value, ';'))) }

  function Print(d: Directive): string { Join([d.name] + d.sources, " ") }

  function PrintAll(ds: seq<Directive>): seq<string> {
    if ds == [] then [] else [Print(ds[0])] + PrintAll(ds[1..])
  }

  function Render(ds: seq<Directive>): string { Join(PrintAll(ds), "; ") }

  /** The value normalise keeps for a Content-Security-Policy header. */
  function CspValue(value: string): string { Render(CspDirectives(value)) }

  // ---------------------------------------------------------------- what a policy means

  /** The directives as written: the words of each part, the first one being the name. */
  function Written(parts: seq<string>): seq<Directive> {
    if parts == [] then [] else
      var words := Words(parts[0]);
      (if words == [] then [] else [Directive(Lower(words[0]), words[1..])]) + Written(parts[1..])
  }

  /** The source lists of the directives of one name, in order. */
  function Named(ds: seq<Directive>, name: string): seq<seq<string>> {
    if ds == [] then [] else (if ds[0].name == name then [ds[0].sources] else []) + Named(ds[1..], name)
  }

  /** The same sources equally often, whatever the order, placeholders aside. */
  ghost predicate SameSources(a: seq<string>, b: seq<string>) {
    forall x :: x != "__WEB_HOSTNAME__" && x != "__NGINX_HOST__" ==> Count(a, x) == Count(b, x)
  }

  ghost predicate SameLists(a: seq<seq<string>>, b: seq<seq<string>>) {
    |a| == |b| && forall k :: 0 <= k < |a| ==> SameSources(a[k], b[k])
  }

  /** For every name, the directives of that name, in order, list the same sources. */
  ghost predicate SameMeaning(a: seq<Directive>, b: seq<Directive>) {
    forall name :: SameLists(Named(a, name), Named(b, name))
  }

  ghost predicate MeansTheSame(v: string, w: string) {
    SameMeaning(Written(SplitOn(v, ';')), Written(SplitOn(w, ';')))
  }

  // ---------------------------------------------------------------- the chain reads what is written

  function Tidy(d: Directive): Directive { d.(sources := SortStrings(Kept(d.sources))) }

  function TidyAll(ds: seq<Directive>): seq<Directive> {
    if ds == [] then [] else [Tidy(ds[0])] + TidyAll(ds[1..])
  }

  lemma PartIsWords(part: string)
    ensures Collapse(part) == "" <==> Words(part) == []
    ensures Words(part) != [] ==> SplitOn(Collapse(part), ' ') == Words(part)
  {
    CollapseIsWords(part);
    WordsAreWords(part);
    if Words(part) != [] {
      JoinEnds(Words(part));
      assert forall i :: 0 <= i < |Words(part)| ==> IsWord(Words(part)[i]) && Lacks(Words(part)[i], ' ');
      SplitJoin(Words(part), ' ');
    }
  }

  lemma {:induction false} ReadTidiesWritten(parts: seq<string>)
    ensures Read(parts) == TidyAll(Written(parts))
  {
    if parts != [] {
      PartIsWords(parts[0]);
      ReadTidiesWritten(parts[1..]);
      var words := Words(parts[0]);
      if words != [] {
        assert Written(parts)[0] == Directive(Lower(words[0]), words[1..]);
        assert Written(parts)[1..] == Written(parts[1..]);
      } else {
        assert Written(parts) == Written(parts[1..]);
      }
    }
  }

  // ---------------------------------------------------------------- sorting by name

  predicate NamesInOrder(ds: seq<Directive>) {
    |ds| < 2 || (!Less(ds[1].name, ds[0].name) && NamesInOrder(ds[1..]))
  }

  lemma NamedCons(d: Directive, ds: seq<Directive>, name: string)
    ensures Named([d] + ds, name) == (if d.name == name then [d.sources] else []) + Named(ds, name)
  {
    assert ([d] + ds)[1..] == ds;
  }

  lemma {:induction false} InsertNamed(d: Directive, sorted: seq<Directive>, name: string)
    ensures Named(InsertDirective(d, sorted), name)
      == (if d.name == name then [d.sources] else []) + Named(sorted, name)
  {
    if sorted != [] && Less(sorted[0].name, d.name) {
      var first, more := sorted[0], sorted[1..];
      LessTotal(first.name, d.name);
      InsertNamed(d, more, name);
      NamedCons(first, InsertDirective(d, more), name);
      NamedCons(first, more, name);
      assert sorted == [first] + more && first.name != d.name;
    } else {
      NamedCons(d, sorted, name);
    }
  }

  lemma {:induction false} SortNamed(ds: seq<Directive>, name: string)
    ensures Named(SortDirectives(ds), name) == Named(ds, name)
  {
    if ds != [] {
      SortNamed(ds[1..], name);
      InsertNamed(ds[0], SortDirectives(ds[1..]), name);
    }
  }

  lemma {:induction false} InsertNamesInOrder(d: Directive, sorted: seq<Directive>)
    requires NamesInOrder(sorted)
    ensures NamesInOrder(InsertDirective(d, sorted))
    ensures InsertDirective(d, sorted)[0] == d || (sorted != [] && InsertDirective(d, sorted)[0] == sorted[0])
  {
    if sorted != [] {
      LessTotal(sorted[0].name, d.name);
      if Less(sorted[0].name, d.name) {
        InsertNamesInOrder(d, sorted[1..]);
      }
    }
  }

  lemma {:induction false} SortNamesInOrder(ds: seq<Directive>)
    ensures NamesInOrder(SortDirectives(ds))
  {
    if ds != [] {
      SortNamesInOrder(ds[1..]);
      InsertNamesInOrder(ds[0], SortDirectives(ds[1..]));
    }
  }

  lemma {:induction false} NameBelowHead(ds: seq<Directive>, name: string)
    requires NamesInOrder(ds) && ds != [] && Less(name, ds[0].name)
    ensures Named(ds, name) == []
  {
    LessTotal(name, ds[0].name);
    if |ds| > 1 {
      LessTotal(ds[0].name, ds[1].name);
      if Less(ds[0].name, ds[1].name) {
        LessTransitive(name, ds[0].name, ds[1].name);
      }
      NameBelowHead(ds[1..], name);
    }
  }

  lemma FirstNamesAgree(a: seq<Directive>, b: seq<Directive>)
    requires NamesInOrder(a) && NamesInOrder(b) && a != [] && b != []
    requires Named(a, a[0].name) == Named(b, a[0].name) && Named(a, b[0].name) == Named(b, b[0].name)
    ensures a[0] == b[0]
  {
    assert Named(a, a[0].name)[0] == a[0].sources && Named(b, b[0].name)[0] == b[0].sources;
    LessTotal(a[0].name, b[0].name);
    if Less(a[0].name, b[0].name) {
      NameBelowHead(b, a[0].name);
    } else if Less(b[0].name, a[0].name) {
      NameBelowHead(a, b[0].name);
    }
  }

  ghost predicate SameNamed(a: seq<Directive>, b: seq<Directive>) {
    forall name :: Named(a, name) == Named(b, name)
  }

  lemma EmptyNamed(a: seq<Directive>, b: seq<Directive>)
    requires SameNamed(a, b)
    ensures a == [] ==> b == []
  {
    if b != [] {
      assert Named(b, b[0].name) != [];
    }
  }

  /** Directives in order of their names are determined by the lists of each name. */
  lemma {:induction false} OrderedByNamed(a: seq<Directive>, b: seq<Directive>)
    requires NamesInOrder(a) && NamesInOrder(b) && SameNamed(a, b)
    ensures a == b
  {
    EmptyNamed(a, b);
    EmptyNamed(b, a);
    if a != [] && b != [] {
      FirstNamesAgree(a, b);
      forall name ensures Named(a[1..], name) == Named(b[1..], name) {
        var x := if a[0].name == name then [a[0].sources] else [];
        assert Named(a, name) == x + Named(a[1..], name) && Named(b, name) == x + Named(b[1..], name);
        assert Named(a, name)[|x|..] == Named(a[1..], name) && Named(b, name)[|x|..] == Named(b[1..], name);
      }
      OrderedByNamed(a[1..], b[1..]);
      assert a == [a[0]] + a[1..] && b == [b[0]] + b[1..];
    }
  }

  // ---------------------------------------------------------------- same form, same meaning

  lemma {:induction false} KeptCounts(sources: seq<string>, x: string)
    ensures Count(Kept(sources), x) == if IsPlaceholder(x) then 0 else Count(sources, x)
  {
    if sources != [] {
      KeptCounts(sources[1..], x);
      if IsPlaceholder(sources[0]) {
        assert Kept(sources) == Kept(sources[1..]);
      } else {
        assert Kept(sources)[1..] == Kept(sources[1..]);
      }
    }
  }

  lemma TidySameSources(a: seq<string>, b: seq<string>)
    ensures SortStrings(Kept(a)) == SortStrings(Kept(b)) <==> SameSources(a, b)
  {
    SortsAlike(Kept(a), Kept(b));
    forall x ensures Count(Kept(a), x) == (if IsPlaceholder(x) then 0 else Count(a, x))
    { KeptCounts(a, x); }
    forall x ensures Count(Kept(b), x) == (if IsPlaceholder(x) then 0 else Count(b, x))
    { KeptCounts(b, x); }
    if SameCounts(Kept(a), Kept(b)) {
      forall x | !IsPlaceholder(x) ensures Count(a, x) == Count(b, x) {
        assert Count(Kept(a), x) == Count(Kept(b), x);
      }
    }
  }

  lemma {:induction false} TidyNamed(ds: seq<Directive>, name: string)
    ensures |Named(TidyAll(ds), name)| == |Named(ds, name)|
    ensures forall k :: 0 <= k < |Named(ds, name)| ==>
      Named(TidyAll(ds), name)[k] == SortStrings(Kept(Named(ds, name)[k]))
  {
    if ds != [] {
      TidyNamed(ds[1..], name);
      assert TidyAll(ds)[1..] == TidyAll(ds[1..]);
    }
  }

  lemma TidySameLists(a: seq<Directive>, b: seq<Directive>, name: string)
    ensures Named(TidyAll(a), name) == Named(TidyAll(b), name) <==> SameLists(Named(a, name), Named(b, name))
  {
    TidyNamed(a, name);
    TidyNamed(b, name);
    var x, y := Named(a, name), Named(b, name);
    forall k | 0 <= k < |x| && |x| == |y|
      ensures Named(TidyAll(a), name)[k] == Named(TidyAll(b), name)[k] <==> SameSources(x[k], y[k])
    {
      TidySameSources(x[k], y[k]);
    }
  }

  /** Sorting the tidied directives decides sameness of meaning. */
  lemma SortedAlike(a: seq<Directive>, b: seq<Directive>)
    ensures SortDirectives(TidyAll(a)) == SortDirectives(TidyAll(b)) <==> SameMeaning(a, b)
  {
    var s, t := SortDirectives(TidyAll(a)), SortDirectives(TidyAll(b));
    SortNamesInOrder(TidyAll(a));
    SortNamesInOrder(TidyAll(b));
    forall name ensures Named(s, name) == Named(t, name) <==> SameLists(Named(a, name), Named(b, name)) {
      SortNamed(TidyAll(a), name);
      SortNamed(TidyAll(b), name);
      TidySameLists(a, b, name);
    }
    if SameMeaning(a, b) {
      forall name ensures Named(s, name) == Named(t, name) {
        assert SameLists(Named(a, name), Named(b, name));
      }
      OrderedByNamed(s, t);
    } else {
      var name :| !SameLists(Named(a, name), Named(b, name));
      assert Named(s, name) != Named(t, name);
    }
  }

  lemma DirectivesDecideMeaning(v: string, w: string)
    ensures CspDirectives(v) == CspDirectives(w) <==> MeansTheSame(v, w)
  {
    ReadTidiesWritten(SplitOn(v, ';'));
    ReadTidiesWritten(SplitOn(w, ';'));
    SortedAlike(Written(SplitOn(v, ';')), Written(SplitOn(w, ';')));
  }

  // ---------------------------------------------------------------- reading a normal form

  predicate IsToken(s: string) { IsWord(s) && Lacks(s, ';') }

  predicate IsNormalDirective(d: Directive) {
    && IsToken(d.name) && Lower(d.name) == d.name && InOrder(d.sources)
    && forall i :: 0 <= i < |d.sources| ==> IsToken(d.sources[i]) && !IsPlaceholder(d.sources[i])
  }

  predicate AreNormal(ds: seq<Directive>) {
    ds == [] || (IsNormalDirective(ds[0]) && AreNormal(ds[1..]))
  }

  predicate IsNormal(ds: seq<Directive>) { NamesInOrder(ds) && AreNormal(ds) }

  lemma {:induction false} KeptAll(sources: seq<string>)
    requires forall i :: 0 <= i < |sources| ==> !IsPlaceholder(sources[i])
    ensures Kept(sources) == sources
  {
    if sources != [] {
      KeptAll(sources[1..]);
    }
  }

  lemma {:induction false} TidyKeepsNormal(ds: seq<Directive>)
    requires AreNormal(ds)
    ensures TidyAll(ds) == ds
  {
    if ds != [] {
      KeptAll(ds[0].sources);
      SortKeepsOrdered(ds[0].sources);
      TidyKeepsNormal(ds[1..]);
    }
  }

  lemma {:induction false} SortKeepsNamesInOrder(ds: seq<Directive>)
    requires NamesInOrder(ds)
    ensures SortDirectives(ds) == ds
  {
    if ds != [] {
      SortKeepsNamesInOrder(ds[1..]);
    }
  }

  lemma PrintReads(d: Directive)
    requires IsNormalDirective(d)
    ensures Lacks(Print(d), ';') && Words(Print(d)) == [d.name] + d.sources
  {
    var ws := [d.name] + d.sources;
    JoinLacks(ws, " ", ';');
    WordsOfJoin(ws);
  }

  lemma WrittenAfterSpace(rest: string)
    ensures Written(SplitOn(" " + rest, ';')) == Written(SplitOn(rest, ';'))
  {
    var parts := SplitOn(rest, ';');
    assert (" " + rest)[1..] == rest;
    assert SplitOn(" " + rest, ';') == [" " + parts[0]] + parts[1..];
    assert (" " + parts[0])[1..] == parts[0];
    assert Words(" " + parts[0]) == Words(parts[0]);
  }

  lemma WrittenFirst(d: Directive, parts: seq<string>)
    requires IsNormalDirective(d)
    ensures Written([Print(d)] + parts) == [d] + Written(parts)
  {
    PrintReads(d);
    assert ([Print(d)] + parts)[1..] == parts;
    assert ([d.name] + d.sources)[1..] == d.sources;
  }

  lemma WrittenOfNone()
    ensures Written(SplitOn(Render([]), ';')) == []
  {
    assert SplitOn("", ';') == [""];
    assert Words("") == [];
    assert Written([""]) == Written([""][1..]);
  }

  lemma WrittenOfOne(d: Directive, text: string)
    requires IsNormalDirective(d) && text == Print(d)
    ensures Written(SplitOn(text, ';')) == [d]
  {
    PrintReads(d);
    SplitWhole(text, ';');
    WrittenFirst(d, []);
  }

  lemma RenderStep(ds: seq<Directive>)
    requires |ds| > 1
    ensures Render(ds) == Print(ds[0]) + ([';'] + (" " + Render(ds[1..])))
  {
    var rest := Render(ds[1..]);
    assert PrintAll(ds)[1..] == PrintAll(ds[1..]);
    assert "; " + rest == [';'] + (" " + rest);
  }

  lemma WrittenStep(d: Directive, rest: string, text: string)
    requires IsNormalDirective(d) && text == Print(d) + ([';'] + (" " + rest))
    ensures Written(SplitOn(text, ';')) == [d] + Written(SplitOn(rest, ';'))
  {
    PrintReads(d);
    SplitHead(Print(d), ';', " " + rest);
    WrittenAfterSpace(rest);
    WrittenFirst(d, SplitOn(" " + rest, ';'));
  }

  lemma {:induction false} WrittenOfRender(ds: seq<Directive>, text: string)
    requires AreNormal(ds) && text == Render(ds)
    ensures Written(SplitOn(text, ';')) == ds
  {
    if ds == [] {
      WrittenOfNone();
    } else if |ds| == 1 {
      assert PrintAll(ds) == [Print(ds[0])];
      WrittenOfOne(ds[0], text);
    } else {
      var rest := Render(ds[1..]);
      WrittenOfRender(ds[1..], rest);
      RenderStep(ds);
      WrittenStep(ds[0], rest, text);
      assert ds == [ds[0]] + ds[1..];
    }
  }

  /** Reading a normal form again gives it back. */
  lemma RereadNormal(ds: seq<Directive>)
    requires IsNormal(ds)
    ensures CspDirectives(Render(ds)) == ds
  {
    WrittenOfRender(ds, Render(ds));
    ReadTidiesWritten(SplitOn(Render(ds), ';'));
    TidyKeepsNormal(ds);
    SortKeepsNamesInOrder(ds);
  }

  // ---------------------------------------------------------------- the chain gives normal forms

  lemma {:induction false} LowerIsLow(s: string)
    ensures Lower(Lower(s)) == Lower(s) && |Lower(s)| == |s|
    ensures IsToken(s) ==> IsToken(Lower(s))
  {
    if s != "" {
      LowerIsLow(s[1..]);
      assert Lower(s)[1..] == Lower(s[1..]);
      if IsToken(s) && |s| > 1 {
        assert IsToken(s[1..]);
      }
    }
  }

  lemma {:induction false} WordsLack(s: string, c: char)
    requires Lacks(s, c)
    ensures forall i :: 0 <= i < |Words(s)| ==> Lacks(Words(s)[i], c)
  {
    if s != "" {
      WordsLack(s[1..], c);
    }
  }

  lemma {:induction false} CountMember(xs: seq<string>, x: string)
    ensures Count(xs, x) > 0 <==> x in xs
  {
    if xs != [] {
      CountMember(xs[1..], x);
      assert xs == [xs[0]] + xs[1..];
    }
  }

  lemma {:induction false} TidyMembers(sources: seq<string>, x: string)
    ensures x in SortStrings(Kept(sources)) ==> x in sources && !IsPlaceholder(x)
  {
    CountMember(SortStrings(Kept(sources)), x);
    CountMember(sources, x);
    SortCounts(Kept(sources), x);
    KeptCounts(sources, x);
  }

  predicate IsWritten(d: Directive) {
    IsToken(d.name) && Lower(d.name) == d.name && forall i :: 0 <= i < |d.sources| ==> IsToken(d.sources[i])
  }

  lemma {:induction false} WrittenAreTokens(parts: seq<string>)
    requires forall i :: 0 <= i < |parts| ==> Lacks(parts[i], ';')
    ensures forall i :: 0 <= i < |Written(parts)| ==> IsWritten(Written(parts)[i])
  {
    if parts != [] {
      WrittenAreTokens(parts[1..]);
      WordsAreWords(parts[0]);
      WordsLack(parts[0], ';');
      if Words(parts[0]) != [] {
        LowerIsLow(Words(parts[0])[0]);
      }
    }
  }

  lemma TidyIsNormal(d: Directive)
    requires IsWritten(d)
    ensures IsNormalDirective(Tidy(d))
  {
    var sorted := SortStrings(Kept(d.sources));
    SortedIsInOrder(Kept(d.sources));
    forall i | 0 <= i < |sorted| ensures IsToken(sorted[i]) && !IsPlaceholder(sorted[i]) {
      TidyMembers(d.sources, sorted[i]);
    }
  }

  lemma {:induction false} InsertKeepsNormal(d: Directive, sorted: seq<Directive>)
    requires IsNormalDirective(d) && AreNormal(sorted)
    ensures AreNormal(InsertDirective(d, sorted))
  {
    if sorted != [] && Less(sorted[0].name, d.name) {
      InsertKeepsNormal(d, sorted[1..]);
      assert InsertDirective(d, sorted)[1..] == InsertDirective(d, sorted[1..]);
    } else {
      assert InsertDirective(d, sorted)[1..] == sorted;
    }
  }

  lemma {:induction false} SortedAreNormal(ds: seq<Directive>)
    requires forall i :: 0 <= i < |ds| ==> IsWritten(ds[i])
    ensures IsNormal(SortDirectives(TidyAll(ds)))
  {
    SortNamesInOrder(TidyAll(ds));
    if ds != [] {
      TidyIsNormal(ds[0]);
      SortedAreNormal(ds[1..]);
      assert TidyAll(ds)[0] == Tidy(ds[0]) && TidyAll(ds)[1..] == TidyAll(ds[1..]);
      InsertKeepsNormal(Tidy(ds[0]), SortDirectives(TidyAll(ds[1..])));
    }
  }

  lemma DirectivesAreNormal(value: string)
    ensures IsNormal(CspDirectives(value))
  {
    var parts := SplitOn(value, ';');
    ReadTidiesWritten(parts);
    WrittenAreTokens(parts);
    SortedAreNormal(Written(parts));
  }

  // ---------------------------------------------------------------- main results

  /** Main result: two policies have the same normal value exactly when they mean the same:
      white space, letter case of names, order of sources, order of directives of different
      names and placeholders do not count, and nothing else is lost. */
  lemma NormalValueDecidesMeaning(v: string, w: string)
    ensures CspValue(v) == CspValue(w) <==> MeansTheSame(v, w)
  {
    DirectivesDecideMeaning(v, w);
    DirectivesAreNormal(v);
    DirectivesAreNormal(w);
    RereadNormal(CspDirectives(v));
    RereadNormal(CspDirectives(w));
  }

  /** Main result: normalising a normal value changes nothing, and keeps the meaning. */
  lemma NormalValueIsStable(v: string)
    ensures CspDirectives(CspValue(v)) == CspDirectives(v)
    ensures CspValue(CspValue(v)) == CspValue(v) && MeansTheSame(CspValue(v), v)
  {
    DirectivesAreNormal(v);
    RereadNormal(CspDirectives(v));
    DirectivesDecideMeaning(CspValue(v), v);
  }
}
