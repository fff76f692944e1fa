/** Counting primitives shared by every report: sums, occurrence counts and a
    histogram over consecutive integer keys (the shape every time-bucketed
    series and the latency histogram have). */
module Counting {
  import opened Wrappers

  /** Sum of a sequence of integers, folded from the right end. */
  function Sum(s: seq<int>): int
  {
    if |s| == 0 then 0 else Sum(s[..|s| - 1]) + s[|s| - 1]
  }

  /** Number of positions of `xs` that hold `v`. */
  function Occurrences<T(==)>(xs: seq<T>, v: T): nat
  {
    if |xs| == 0 then 0
    else Occurrences(xs[..|xs| - 1], v) + (if xs[|xs| - 1] == v then 1 else 0)
  }

  /** Number of keys strictly below `k`. */
  function CountBelow(ks: seq<int>, k: int): nat
  {
    if |ks| == 0 then 0
    else CountBelow(ks[..|ks| - 1], k) + (if ks[|ks| - 1] < k then 1 else 0)
  }

  /** Per-key counts of the `n` consecutive keys `lo`, `lo + 1`, ..., `lo + n - 1`. */
  function Histogram(ks: seq<int>, lo: int, n: nat): (h: seq<nat>)
    ensures |h| == n
  {
    if n == 0 then [] else Histogram(ks, lo, n - 1) + [Occurrences(ks, lo + n - 1)]
  }

  lemma {:induction false} OccurrencesPositive<T>(xs: seq<T>, v: T)
    ensures Occurrences(xs, v) > 0 <==> v in xs
  {
    if |xs| > 0 {
      OccurrencesPositive(xs[..|xs| - 1], v);
      assert xs == xs[..|xs| - 1] + [xs[|xs| - 1]];
    }
  }

  lemma {:induction false} OccurrencesAppend<T>(xs: seq<T>, ys: seq<T>, v: T)
    ensures Occurrences(xs + ys, v) == Occurrences(xs, v) + Occurrences(ys, v)
    decreases |ys|
  {
    if |ys| == 0 {
      assert xs + ys == xs;
    } else {
      assert (xs + ys)[..|xs + ys| - 1] == xs + ys[..|ys| - 1];
      OccurrencesAppend(xs, ys[..|ys| - 1], v);
    }
  }

  lemma OccurrencesSnoc<T>(xs: seq<T>, v: T, w: T)
    ensures Occurrences(xs + [v], w) == Occurrences(xs, w) + (if v == w then 1 else 0)
  {
    assert (xs + [v])[..|xs|] == xs;
  }

  lemma {:induction false} OccurrencesBound<T>(xs: seq<T>, v: T)
    ensures Occurrences(xs, v) <= |xs|
  {
    if |xs| > 0 {
      OccurrencesBound(xs[..|xs| - 1], v);
    }
  }

  lemma {:induction false} SumAppend(s: seq<int>, t: seq<int>)
    ensures Sum(s + t) == Sum(s) + Sum(t)
    decreases |t|
  {
    if |t| == 0 {
      assert s + t == s;
    } else {
      assert (s + t)[..|s + t| - 1] == s + t[..|t| - 1];
      SumAppend(s, t[..|t| - 1]);
    }
  }

  /** Moving the bound up by one admits exactly the keys equal to the old bound. */
  lemma {:induction false} CountBelowStep(ks: seq<int>, k: int)
    ensures CountBelow(ks, k + 1) == CountBelow(ks, k) + Occurrences(ks, k)
  {
    if |ks| > 0 {
      CountBelowStep(ks[..|ks| - 1], k);
    }
  }

  lemma {:induction false} CountBelowRange(ks: seq<int>, lo: int, hi: int)
    requires forall i :: 0 <= i < |ks| ==> lo <= ks[i] < hi
    ensures CountBelow(ks, lo) == 0
    ensures CountBelow(ks, hi) == |ks|
  {
    if |ks| > 0 {
      CountBelowRange(ks[..|ks| - 1], lo, hi);
    }
  }

  lemma {:induction false} HistogramPrefixSum(ks: seq<int>, lo: int, n: nat)
    ensures Sum(Histogram(ks, lo, n)) == CountBelow(ks, lo + n) - CountBelow(ks, lo)
  {
    if n > 0 {
      assert Histogram(ks, lo, n)[..n - 1] == Histogram(ks, lo, n - 1);
      HistogramPrefixSum(ks, lo, n - 1);
      CountBelowStep(ks, lo + n - 1);
    }
  }

  /** When every key lies among the histogram's keys, the counts add up to the
      number of keys: nothing is lost and nothing is counted twice. */
  lemma HistogramSum(ks: seq<int>, lo: int, n: nat)
    requires forall i :: 0 <= i < |ks| ==> lo <= ks[i] < lo + n
    ensures Sum(Histogram(ks, lo, n)) == |ks|
  {
    HistogramPrefixSum(ks, lo, n);
    CountBelowRange(ks, lo, lo + n);
  }

  /** Cell `i` of the histogram counts the occurrences of the key `lo + i`. */
  lemma {:induction false} HistogramCell(ks: seq<int>, lo: int, n: nat, i: nat)
    requires i < n
    ensures Histogram(ks, lo, n)[i] == Occurrences(ks, lo + i)
  {
    if i < n - 1 {
      HistogramCell(ks, lo, n - 1, i);
    }
  }

  /** Every cell of the histogram counts the occurrences of its key. */
  lemma HistogramCells(ks: seq<int>, lo: int, n: nat)
    ensures forall i :: 0 <= i < n ==> Histogram(ks, lo, n)[i] == Occurrences(ks, lo + i)
  {
    forall i | 0 <= i < n
      ensures Histogram(ks, lo, n)[i] == Occurrences(ks, lo + i)
    {
      HistogramCell(ks, lo, n, i);
    }
  }

  /** The arithmetic mean, absent for an empty sequence (pandas' `mean()`
      of an empty column is NaN). */
  function Mean(xs: seq<int>): (m: Option<real>)
    ensures m.None? <==> |xs| == 0
    ensures m.Some? ==> m.value * (|xs| as real) == Sum(xs) as real
  {
    if |xs| == 0 then None else Some((Sum(xs) as real) / (|xs| as real))
  }

  lemma {:induction false} SumBounds(xs: seq<int>, lo: int, hi: int)
    requires forall i :: 0 <= i < |xs| ==> lo <= xs[i] <= hi
    ensures |xs| * lo <= Sum(xs) <= |xs| * hi
  {
    if |xs| > 0 {
      SumBounds(xs[..|xs| - 1], lo, hi);
      assert |xs| * lo == (|xs| - 1) * lo + lo;
      assert |xs| * hi == (|xs| - 1) * hi + hi;
    }
  }

  lemma QuotientBounds(s: real, n: real, lo: real, hi: real)
    requires 0.0 < n && n * lo <= s <= n * hi
    ensures lo <= s / n <= hi
  {
    var q := s / n;
    assert q * n == s;
  }

  /** The mean lies between any lower and upper bound of the values. */
  lemma MeanBetween(xs: seq<int>, lo: int, hi: int)
    requires |xs| > 0
    requires forall i :: 0 <= i < |xs| ==> lo <= xs[i] <= hi
    ensures lo as real <= Mean(xs).value <= hi as real
  {
    SumBounds(xs, lo, hi);
    ProductAsReal(|xs|, lo);
    ProductAsReal(|xs|, hi);
    QuotientBounds(Sum(xs) as real, |xs| as real, lo as real, hi as real);
  }

  lemma MeanNonNegative(xs: seq<int>)
    requires |xs| > 0
    requires forall i :: 0 <= i < |xs| ==> xs[i] >= 0
    ensures Mean(xs).value >= 0.0
  {
    MeanBetween(xs, 0, SeqMax(xs));
  }

  lemma ProductAsReal(a: int, b: int)
    ensures (a * b) as real == (a as real) * (b as real)
  {
  }

  /** Least element. */
  function SeqMin(xs: seq<int>): (m: int)
    requires |xs| > 0
    ensures forall i :: 0 <= i < |xs| ==> m <= xs[i]
    ensures m in xs
  {
    if |xs| == 1 then xs[0]
    else
      var m := SeqMin(xs[..|xs| - 1]);
      assert xs == xs[..|xs| - 1] + [xs[|xs| - 1]];
      if xs[|xs| - 1] < m then xs[|xs| - 1] else m
  }

  /** Greatest element. */
  function SeqMax(xs: seq<int>): (m: int)
    requires |xs| > 0
    ensures forall i :: 0 <= i < |xs| ==> xs[i] <= m
    ensures m in xs
  {
    if |xs| == 1 then xs[0]
    else
      var m := SeqMax(xs[..|xs| - 1]);
      assert xs == xs[..|xs| - 1] + [xs[|xs| - 1]];
      if xs[|xs| - 1] > m then xs[|xs| - 1] else m
  }
}
