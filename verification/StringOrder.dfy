/**
 * The order JavaScript sorts strings in, and sorting a list of strings by it.
 *
 * Less compares code units. Sorting is by insertion, and an ordered list is determined by how
 * often it holds each string.
 */
module StringOrder {
  /** Code unit order, as Array.prototype.sort uses on strings. */
  predicate Less(a: string, b: string) {
    b != "" && (a == "" || a[0] < b[0] || (a[0] == b[0] && Less(a[1..], b[1..])))
  }

  lemma {:induction false} LessTotal(a: string, b: string)
    ensures Less(a, b) || Less(b, a) || a == b
    ensures !(Less(a, b) && Less(b, a)) && !Less(a, a)
    decreases |a|
  {
    if a != "" && b != "" {
      LessTotal(a[1..], b[1..]);
      LessTotal(a[1..], a[1..]);
      assert a == [a[0]] + a[1..] && b == [b[0]] + b[1..];
    } else if a != "" {
      LessTotal(a[1..], a[1..]);
    }
  }

  lemma {:induction false} LessTransitive(a: string, b: string, c: string)
    requires Less(a, b) && Less(b, c)
    ensures Less(a, c)
    decreases |a|
  {
    if a != "" && a[0] == b[0] && b[0] == c[0] {
      LessTransitive(a[1..], b[1..], c[1..]);
    }
  }

  // ---------------------------------------------------------------- sorting

  function InsertString(x: string, sorted: seq<string>): seq<string> {
    if sorted == [] then [x]
    else if Less(sorted[0], x) then [sorted[0]] + InsertString(x, sorted[1..])
    else [x] + sorted
  }

  /** Array.prototype.sort on strings. */
  function SortStrings(xs: seq<string>): seq<string> {
    if xs == [] then [] else InsertString(xs[0], SortStrings(xs[1..]))
  }

  predicate InOrder(xs: seq<string>) {
    |xs| < 2 || (!Less(xs[1], xs[0]) && InOrder(xs[1..]))
  }

  function Count(xs: seq<string>, x: string): nat {
    if xs == [] then 0 else (if xs[0] == x then 1 else 0) + Count(xs[1..], x)
  }

  lemma {:induction false} InsertCounts(y: string, sorted: seq<string>, x: string)
    ensures Count(InsertString(y, sorted), x) == Count(sorted, x) + if x == y then 1 else 0
  {
    if sorted != [] && Less(sorted[0], y) {
      InsertCounts(y, sorted[1..], x);
    }
  }

  lemma {:induction false} InsertInOrder(y: string, sorted: seq<string>)
    requires InOrder(sorted)
    ensures InOrder(InsertString(y, sorted))
    ensures InsertString(y, sorted)[0] == y || (sorted != [] && InsertString(y, sorted)[0] == sorted[0])
  {
    if sorted != [] {
      LessTotal(sorted[0], y);
      if Less(sorted[0], y) {
        InsertInOrder(y, sorted[1..]);
      }
    }
  }

  /** Sorting puts the same strings in order. */
  lemma {:induction false} SortedIsInOrder(xs: seq<string>)
    ensures InOrder(SortStrings(xs))
  {
    if xs != [] {
      SortedIsInOrder(xs[1..]);
      InsertInOrder(xs[0], SortStrings(xs[1..]));
    }
  }

  lemma {:induction false} SortCounts(xs: seq<string>, x: string)
    ensures Count(SortStrings(xs), x) == Count(xs, x)
  {
    if xs != [] {
      SortCounts(xs[1..], x);
      InsertCounts(xs[0], SortStrings(xs[1..]), x);
    }
  }

  /** A string smaller than the head of an ordered list is not in it. */
  lemma {:induction false} BelowHead(xs: seq<string>, x: string)
    requires InOrder(xs) && xs != [] && Less(x, xs[0])
    ensures Count(xs, x) == 0
  {
    LessTotal(x, xs[0]);
    if |xs| > 1 {
      LessTotal(xs[0], xs[1]);
      if Less(xs[0], xs[1]) {
        LessTransitive(x, xs[0], xs[1]);
      }
      BelowHead(xs[1..], x);
    }
  }

  lemma EmptyByCounts(a: seq<string>, b: seq<string>)
    requires forall x :: Count(a, x) == Count(b, x)
    ensures a == [] ==> b == []
  {
    if b != [] {
      assert Count(b, b[0]) > 0;
    }
  }

  lemma HeadsAgree(a: seq<string>, b: seq<string>)
    requires InOrder(a) && InOrder(b) && a != [] && b != []
    requires Count(a, a[0]) == Count(b, a[0]) && Count(a, b[0]) == Count(b, b[0])
    ensures a[0] == b[0]
  {
    LessTotal(a[0], b[0]);
    if Less(a[0], b[0]) {
      BelowHead(b, a[0]);
    } else if Less(b[0], a[0]) {
      BelowHead(a, b[0]);
    }
  }

  /** An ordered list is determined by how often each string occurs. */
  lemma {:induction false} OrderedByCounts(a: seq<string>, b: seq<string>)
    requires InOrder(a) && InOrder(b) && forall x :: Count(a, x) == Count(b, x)
    ensures a == b
  {
    EmptyByCounts(a, b);
    EmptyByCounts(b, a);
    if a != [] && b != [] {
      HeadsAgree(a, b);
      forall x ensures Count(a[1..], x) == Count(b[1..], x) {
        assert Count(a, x) == Count(b, x);
      }
      OrderedByCounts(a[1..], b[1..]);
      assert a == [a[0]] + a[1..] && b == [b[0]] + b[1..];
    }
  }

  /** Two lists sort alike exactly when every string occurs equally often in both. */
  lemma SortsAlike(a: seq<string>, b: seq<string>)
    ensures SortStrings(a) == SortStrings(b) <==> SameCounts(a, b)
  {
    SortedIsInOrder(a);
    SortedIsInOrder(b);
    forall x ensures Count(SortStrings(a), x) == Count(a, x) && Count(SortStrings(b), x) == Count(b, x) {
      SortCounts(a, x);
      SortCounts(b, x);
    }
    if SameCounts(a, b) {
      OrderedByCounts(SortStrings(a), SortStrings(b));
    } else {
      var x :| Count(a, x) != Count(b, x);
      assert Count(SortStrings(a), x) != Count(SortStrings(b), x);
    }
  }

  ghost predicate SameCounts(a: seq<string>, b: seq<string>) {
    forall x :: Count(a, x) == Count(b, x)
  }

  lemma SortKeepsOrdered(a: seq<string>)
    requires InOrder(a)
    ensures SortStrings(a) == a
  {
    SortedIsInOrder(a);
    forall x ensures Count(SortStrings(a), x) == Count(a, x) {
      SortCounts(a, x);
    }
    OrderedByCounts(SortStrings(a), a);
  }
}
