/** Counting specification shared by the region and currency tables: a
    histogram of a sequence of labels maps each label that occurs to the
    number of times it occurs, and nothing else. */
module Histograms {

  /** The number of times `x` occurs in `xs`. */
  function Occurrences(xs: seq<string>, x: string): (n: nat)
    ensures n <= |xs|
    ensures n == 0 <==> x !in xs
  {
    if xs == [] then 0
    else
      assert x in xs <==> xs[0] == x || x in xs[1..];
      (if xs[0] == x then 1 else 0) + Occurrences(xs[1..], x)
  }

  lemma {:induction false} OccurrencesAppend(a: seq<string>, b: seq<string>, x: string)
    ensures Occurrences(a + b, x) == Occurrences(a, x) + Occurrences(b, x)
  {
    if a == [] {
      assert a + b == b;
    } else {
      assert (a + b)[1..] == a[1..] + b;
      OccurrencesAppend(a[1..], b, x);
    }
  }

  /** The count recorded for `x` in a table, 0 when `x` has no entry. */
  function CountOf(m: map<string, nat>, x: string): nat {
    if x in m then m[x] else 0
  }

  /** One more occurrence of `x`: its count goes from absent-or-n to n + 1. */
  function Bump(m: map<string, nat>, x: string): map<string, nat> {
    m[x := CountOf(m, x) + 1]
  }

  /** Bumping adds `x` as a key if needed, raises its count by one and keeps
      every other count. */
  lemma BumpCounts(m: map<string, nat>, x: string)
    ensures Bump(m, x).Keys == m.Keys + {x}
    ensures forall y :: CountOf(Bump(m, x), y) == CountOf(m, y) + (if y == x then 1 else 0)
  {
  }

  /** The histogram of `xs`, counted label by label from the left. */
  function Histogram(xs: seq<string>): map<string, nat> {
    if xs == [] then map[] else Bump(Histogram(xs[..|xs| - 1]), xs[|xs| - 1])
  }

  /** A histogram has exactly the labels of its input as keys, each with a
      count of at least 1 that is its number of occurrences. */
  lemma {:induction false} HistogramCounts(xs: seq<string>)
    ensures Histogram(xs).Keys == set x | x in xs
    ensures forall x :: x in Histogram(xs) ==> 1 <= Histogram(xs)[x]
    ensures forall x :: CountOf(Histogram(xs), x) == Occurrences(xs, x)
  {
    if xs != [] {
      var init, last := xs[..|xs| - 1], xs[|xs| - 1];
      assert xs == init + [last];
      HistogramCounts(init);
      BumpCounts(Histogram(init), last);
      forall x ensures CountOf(Histogram(xs), x) == Occurrences(xs, x) {
        OccurrencesAppend(init, [last], x);
      }
    }
  }

  /** Appending one label to the input raises that label's count by one and
      leaves every other count as it was. */
  lemma HistogramSnoc(xs: seq<string>, x: string)
    ensures Histogram(xs + [x]) == Bump(Histogram(xs), x)
  {
    assert (xs + [x])[..|xs|] == xs;
  }

  /** The sum of the counts a table holds for the keys in `keys`. */
  ghost function SumOver(m: map<string, nat>, keys: set<string>): nat
    requires keys <= m.Keys
  {
    if keys == {} then 0
    else
      var k :| k in keys;
      m[k] + SumOver(m, keys - {k})
  }

  /** The sum of all the counts in a table. */
  ghost function Total(m: map<string, nat>): nat {
    SumOver(m, m.Keys)
  }

  /** Any key may be taken out of the sum first. */
  lemma {:induction false} SumOverRemove(m: map<string, nat>, keys: set<string>, k: string)
    requires keys <= m.Keys && k in keys
    ensures SumOver(m, keys) == m[k] + SumOver(m, keys - {k})
    decreases keys
  {
    var j :| j in keys && SumOver(m, keys) == m[j] + SumOver(m, keys - {j});
    if j != k {
      SumOverRemove(m, keys - {j}, k);
      SumOverRemove(m, keys - {k}, j);
      assert keys - {j} - {k} == keys - {k} - {j};
    }
  }

  /** Two tables that agree on `keys` have the same sum over `keys`. */
  lemma {:induction false} SumOverAgree(m: map<string, nat>, m': map<string, nat>, keys: set<string>)
    requires keys <= m.Keys && keys <= m'.Keys
    requires forall k :: k in keys ==> m[k] == m'[k]
    ensures SumOver(m, keys) == SumOver(m', keys)
    decreases keys
  {
    if keys != {} {
      var k :| k in keys;
      SumOverRemove(m, keys, k);
      SumOverRemove(m', keys, k);
      SumOverAgree(m, m', keys - {k});
    }
  }

  /** Counting one more occurrence raises the total by exactly one. */
  lemma {:induction false} TotalBump(m: map<string, nat>, x: string)
    ensures Total(Bump(m, x)) == Total(m) + 1
  {
    var m' := Bump(m, x);
    BumpCounts(m, x);
    SumOverRemove(m', m'.Keys, x);
    if x in m {
      SumOverRemove(m, m.Keys, x);
      assert m'.Keys - {x} == m.Keys - {x};
      SumOverAgree(m, m', m.Keys - {x});
    } else {
      assert m'.Keys - {x} == m.Keys;
      SumOverAgree(m, m', m.Keys);
    }
  }

  /** The counts of a histogram add up to the length of its input: every
      label is counted exactly once. */
  lemma {:induction false} HistogramTotal(xs: seq<string>)
    ensures Total(Histogram(xs)) == |xs|
  {
    if xs == [] {
      assert Histogram(xs) == map[];
    } else {
      var init, last := xs[..|xs| - 1], xs[|xs| - 1];
      assert xs == init + [last];
      HistogramTotal(init);
      HistogramSnoc(init, last);
      TotalBump(Histogram(init), last);
    }
  }
}
