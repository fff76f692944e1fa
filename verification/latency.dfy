/** `time_diff_data`: for every anchor action (the streamer pushing an item or
    commenting), the delay until the nearest later viewer interaction (a live
    comment or a follow), summarised as a 50-bin histogram. */
module Latency {
  import opened Wrappers
  import opened Counting
  import opened Events

  const AnchorActions: set<string> := {AnchorPushItem, AnchorComment}
  const TargetActions: set<string> := {Comment, Follow}

  /** numpy's `bins=50`. */
  const BinCount: nat := 50

  /** The earliest of `ts` strictly after `a`
      (`user_data[user_data['时间'] > anchor_time]['时间'].min()`). */
  function NextAfter(ts: seq<int>, a: int): (r: Option<int>)
    ensures r.None? <==> forall i :: 0 <= i < |ts| ==> ts[i] <= a
    ensures r.Some? ==> a < r.value && r.value in ts
    ensures r.Some? ==> forall i :: 0 <= i < |ts| && a < ts[i] ==> r.value <= ts[i]
  {
    if |ts| == 0 then None
    else
      var init := ts[..|ts| - 1];
      var t := ts[|ts| - 1];
      var r := NextAfter(init, a);
      assert ts == init + [t];
      if t <= a then r
      else if r.Some? && r.value <= t then r
      else Some(t)
  }

  /** Anchor time `a` is answered `d` seconds later. */
  predicate AnsweredAfter(ts: seq<int>, a: int, d: int)
  {
    NextAfter(ts, a) == Some(a + d)
  }

  /** The latency samples of the anchors, in anchor order; an anchor with no
      later interaction contributes nothing. */
  function Samples(anchors: seq<int>, ts: seq<int>): (r: seq<int>)
    ensures |r| <= |anchors|
    ensures forall i :: 0 <= i < |r| ==> 0 < r[i]
  {
    if |anchors| == 0 then []
    else
      Samples(anchors[..|anchors| - 1], ts) + SampleOf(anchors[|anchors| - 1], ts)
  }

  /** The latency of one anchor, or nothing when no interaction follows it. */
  function SampleOf(a: int, ts: seq<int>): (r: seq<int>)
    ensures |r| <= 1
    ensures forall i :: 0 <= i < |r| ==> 0 < r[i]
  {
    match NextAfter(ts, a)
    case None => []
    case Some(t) => [t - a]
  }

  /** `d` is the latency of one of the anchors. */
  predicate IsLatencyOf(anchors: seq<int>, ts: seq<int>, d: int)
  {
    exists j :: 0 <= j < |anchors| && AnsweredAfter(ts, anchors[j], d)
  }

  /** Every sample is the latency of one of the anchors. */
  lemma {:induction false} SamplesAnswered(anchors: seq<int>, ts: seq<int>)
    ensures forall i :: 0 <= i < |Samples(anchors, ts)| ==> IsLatencyOf(anchors, ts, Samples(anchors, ts)[i])
  {
    if |anchors| > 0 {
      var init := anchors[..|anchors| - 1];
      var r0 := Samples(init, ts);
      var r := Samples(anchors, ts);
      SamplesAnswered(init, ts);
      forall i | 0 <= i < |r|
        ensures IsLatencyOf(anchors, ts, r[i])
      {
        if i < |r0| {
          assert IsLatencyOf(init, ts, r0[i]);
          var j :| 0 <= j < |init| && AnsweredAfter(ts, init[j], r0[i]);
          assert anchors[j] == init[j];
        } else {
          assert AnsweredAfter(ts, anchors[|anchors| - 1], r[i]);
        }
      }
    }
  }

  /** A single anchor yields its latency, or nothing when no interaction
      follows it. */
  lemma SamplesSingle(a: int, ts: seq<int>)
    ensures NextAfter(ts, a).None? ==> Samples([a], ts) == []
    ensures NextAfter(ts, a).Some? ==> Samples([a], ts) == [NextAfter(ts, a).value - a]
  {
    assert [a][..0] == [];
  }

  /** Anchors are processed independently: the samples of two runs of anchors
      are the samples of each, one after the other. Together with
      `SamplesSingle` this determines `Samples` completely. */
  lemma {:induction false} SamplesAppend(a: seq<int>, b: seq<int>, ts: seq<int>)
    ensures Samples(a + b, ts) == Samples(a, ts) + Samples(b, ts)
    decreases |b|
  {
    if |b| == 0 {
      assert a + b == a;
    } else {
      var b0 := b[..|b| - 1];
      var x := b[|b| - 1];
      assert b == b0 + [x];
      assert a + b == (a + b0) + [x];
      calc {
        Samples(a + b, ts);
        { SamplesSnoc(a + b0, x, ts); }
        Samples(a + b0, ts) + SampleOf(x, ts);
        { SamplesAppend(a, b0, ts); }
        (Samples(a, ts) + Samples(b0, ts)) + SampleOf(x, ts);
        Samples(a, ts) + (Samples(b0, ts) + SampleOf(x, ts));
        { SamplesSnoc(b0, x, ts); }
        Samples(a, ts) + Samples(b, ts);
      }
    }
  }

  lemma SamplesSnoc(xs: seq<int>, x: int, ts: seq<int>)
    ensures Samples(xs + [x], ts) == Samples(xs, ts) + SampleOf(x, ts)
  {
    assert (xs + [x])[..|xs|] == xs;
  }

  /** The raw latency samples of a log. */
  function TimeDiffs(es: seq<Event>): (r: seq<int>)
    ensures |r| <= |OfActions(es, AnchorActions)|
    ensures forall i :: 0 <= i < |r| ==> 0 < r[i]
  {
    Samples(Times(OfActions(es, AnchorActions)), Times(OfActions(es, TargetActions)))
  }

  // ---- numpy.histogram(samples, bins=50) -----------------------------------

  /** The histogram's range: the data's extent, widened by a half on each side
      when all samples are equal, and [0, 1] when there are none. */
  function Range(xs: seq<int>): (r: (real, real))
    ensures r.0 < r.1
    ensures forall i :: 0 <= i < |xs| ==> r.0 <= xs[i] as real <= r.1
    ensures |xs| == 0 ==> r == (0.0, 1.0)
    ensures |xs| > 0 && SeqMin(xs) < SeqMax(xs) ==> r == (SeqMin(xs) as real, SeqMax(xs) as real)
    ensures |xs| > 0 && SeqMin(xs) == SeqMax(xs) ==> r == (SeqMin(xs) as real - 0.5, SeqMax(xs) as real + 0.5)
  {
    if |xs| == 0 then (0.0, 1.0)
    else
      var lo := SeqMin(xs);
      var hi := SeqMax(xs);
      if lo == hi then (lo as real - 0.5, hi as real + 0.5) else (lo as real, hi as real)
  }

  /** Edge `i` of the `BinCount` equal-width bins over [lo, hi]. */
  function Edge(lo: real, hi: real, i: int): real
  {
    lo + (i as real) * (hi - lo) / 50.0
  }

  /** Where `x` sits in [lo, hi], measured in bin widths from `lo`. */
  function Fraction(x: real, lo: real, hi: real): real
    requires lo < hi
  {
    (x - lo) * 50.0 / (hi - lo)
  }

  lemma ScaledBound(q: real, d: real, w: real)
    requires 0.0 < w && 0.0 <= d <= w && q * w == d * 50.0
    ensures 0.0 <= q <= 50.0
  {
  }

  lemma FractionBounds(x: real, lo: real, hi: real)
    requires lo < hi && lo <= x <= hi
    ensures 0.0 <= Fraction(x, lo, hi) <= 50.0
    ensures x == lo + Fraction(x, lo, hi) * (hi - lo) / 50.0
  {
    var q := Fraction(x, lo, hi);
    assert q * (hi - lo) == (x - lo) * 50.0;
    ScaledBound(q, x - lo, hi - lo);
  }

  /** The bin that holds `x`: the last bin is closed on the right. */
  function BinIndex(x: real, lo: real, hi: real): (k: nat)
    requires lo < hi && lo <= x <= hi
    ensures k < BinCount
  {
    FractionBounds(x, lo, hi);
    var q := Fraction(x, lo, hi);
    if q.Floor >= BinCount then BinCount - 1 else q.Floor
  }

  /** Scaling the fraction `q` of the range moves the point monotonically. */
  lemma ScaleMonotone(lo: real, w: real, a: real, b: real)
    requires 0.0 < w
    ensures a <= b ==> lo + a * w / 50.0 <= lo + b * w / 50.0
    ensures a < b ==> lo + a * w / 50.0 < lo + b * w / 50.0
  {
    if a <= b {
      assert a * w <= b * w;
    }
    if a < b {
      assert a * w < b * w;
    }
  }

  /** Comparing `x` with an edge is comparing its fraction with the edge's index. */
  lemma EdgeVsFraction(x: real, lo: real, hi: real, i: int)
    requires lo < hi && lo <= x <= hi
    ensures Edge(lo, hi, i) <= x <==> (i as real) <= Fraction(x, lo, hi)
  {
    var w := hi - lo;
    var q := Fraction(x, lo, hi);
    FractionBounds(x, lo, hi);
    if (i as real) <= q {
      calc {
        Edge(lo, hi, i);
      ==
        lo + (i as real) * w / 50.0;
      <= { ScaleMonotone(lo, w, i as real, q); }
        lo + q * w / 50.0;
      ==
        x;
      }
    } else {
      calc {
        x;
      ==
        lo + q * w / 50.0;
      < { ScaleMonotone(lo, w, q, i as real); }
        lo + (i as real) * w / 50.0;
      ==
        Edge(lo, hi, i);
      }
    }
  }

  /** Every value lies between the edges of its bin. */
  lemma BinContains(x: real, lo: real, hi: real)
    requires lo < hi && lo <= x <= hi
    ensures var k := BinIndex(x, lo, hi);
      Edge(lo, hi, k) <= x && (x < Edge(lo, hi, k + 1) || (k == BinCount - 1 && x <= Edge(lo, hi, BinCount)))
  {
    var k := BinIndex(x, lo, hi);
    FractionBounds(x, lo, hi);
    EdgeVsFraction(x, lo, hi, k);
    EdgeVsFraction(x, lo, hi, k + 1);
    EdgeVsFraction(x, lo, hi, BinCount);
    assert Edge(lo, hi, BinCount) == hi;
  }

  /** The bin of every sample. */
  function BinIndices(xs: seq<int>): (ks: seq<int>)
    ensures |ks| == |xs|
    ensures forall i :: 0 <= i < |xs| ==> 0 <= ks[i] < BinCount
  {
    var r := Range(xs);
    seq(|xs|, i requires 0 <= i < |xs| => BinIndex(xs[i] as real, r.0, r.1) as int)
  }

  /** The `时间差` / `频次` chart: the edges of each bin and its count. */
  datatype LatencyChart = LatencyChart(bins: seq<(real, real)>, counts: seq<nat>)

  /** `np.histogram(samples, bins=50)`: fifty adjacent bins spanning the range,
      every sample counted in exactly one of them. */
  function LatencyHistogram(xs: seq<int>): (c: LatencyChart)
    ensures |c.bins| == |c.counts| == BinCount
    ensures Sum(c.counts) == |xs|
    ensures forall k :: 0 <= k < BinCount ==> c.counts[k] == Occurrences(BinIndices(xs), k)
    ensures c.bins[0].0 == Range(xs).0 && c.bins[BinCount - 1].1 == Range(xs).1
    ensures forall k :: 0 <= k < BinCount ==> c.bins[k].0 < c.bins[k].1
    ensures forall k :: 0 < k < BinCount ==> c.bins[k].0 == c.bins[k - 1].1
  {
    var r := Range(xs);
    var ks := BinIndices(xs);
    HistogramSum(ks, 0, BinCount);
    HistogramCells(ks, 0, BinCount);
    var bins := seq(BinCount, i => (Edge(r.0, r.1, i), Edge(r.0, r.1, i + 1)));
    EdgesIncrease(r.0, r.1);
    LatencyChart(bins, Histogram(ks, 0, BinCount))
  }

  lemma EdgesIncrease(lo: real, hi: real)
    requires lo < hi
    ensures forall i :: 0 <= i < BinCount ==> Edge(lo, hi, i) < Edge(lo, hi, i + 1)
    ensures Edge(lo, hi, BinCount) == hi
  {
    forall i | 0 <= i < BinCount
      ensures Edge(lo, hi, i) < Edge(lo, hi, i + 1)
    {
      var w := hi - lo;
      ScaleMonotone(lo, w, i as real, (i + 1) as real);
      assert Edge(lo, hi, i) == lo + (i as real) * w / 50.0;
      assert Edge(lo, hi, i + 1) == lo + ((i + 1) as real) * w / 50.0;
    }
  }

  /** Each sample lies inside the bin that counts it. */
  lemma SampleInItsBin(xs: seq<int>, i: nat)
    requires i < |xs|
    ensures var c := LatencyHistogram(xs); var k := BinIndices(xs)[i];
      c.bins[k].0 <= xs[i] as real &&
      (xs[i] as real < c.bins[k].1 || (k == BinCount - 1 && xs[i] as real <= c.bins[k].1))
  {
    var r := Range(xs);
    BinContains(xs[i] as real, r.0, r.1);
  }

  /** `time_diff_data`: the histogram of the latency samples; there are never
      more samples than rows labelled with an anchor action. */
  function TimeDiffData(es: seq<Event>): (c: LatencyChart)
    ensures |c.bins| == |c.counts| == BinCount
    ensures Sum(c.counts) == |TimeDiffs(es)|
    ensures Sum(c.counts) <= Occurrences(Actions(es), AnchorPushItem) + Occurrences(Actions(es), AnchorComment)
  {
    OfActionsPairCount(es, AnchorPushItem, AnchorComment);
    LatencyHistogram(TimeDiffs(es))
  }
}
