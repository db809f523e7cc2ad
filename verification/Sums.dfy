/** Sums over finite maps: any one key can be taken out of the sum. */
module Sums {
  ghost function Pick(m: map<string, nat>): (k: string)
    requires m != map[]
    ensures k in m
  {
    assert m.Keys != {};
    var k :| k in m.Keys;
    k
  }

  ghost function Sum(m: map<string, nat>): nat
    decreases |m|
  {
    if m == map[] then 0 else
      var k := Pick(m);
      m[k] + Sum(m - {k})
  }

  lemma {:induction false} SumSplit(m: map<string, nat>, k: string)
    requires k in m
    ensures Sum(m) == m[k] + Sum(m - {k})
    decreases |m|
  {
    var p := Pick(m);
    if p != k {
      SumSplit(m - {p}, k);
      SumSplit(m - {k}, p);
      assert m - {p} - {k} == m - {k} - {p};
    }
  }

  /** A positive sum has a positive summand. */
  lemma {:induction false} SumPositive(m: map<string, nat>) returns (k: string)
    requires Sum(m) > 0
    ensures k in m && m[k] > 0
    decreases |m|
  {
    k := Pick(m);
    if m[k] == 0 {
      k := SumPositive(m - {k});
    }
  }

  lemma {:induction false} SumZero(m: map<string, nat>)
    requires forall k :: k in m ==> m[k] == 0
    ensures Sum(m) == 0
    decreases |m|
  {
    if m != map[] {
      SumZero(m - {Pick(m)});
    }
  }
}
