/** `positive_negative_neutral_barrage_by_time`: the log is cut into
    30-minute windows starting exactly at its earliest time, and every row in
    a window is classified by a sentiment score of its message. The scorer
    (SnowNLP) is a parameter. */
module Sentiment {
  import opened Wrappers
  import opened Counting
  import opened Events

  /** A sentiment score: 0 is most negative, 1 most positive. */
  type Score = r: real | 0.0 <= r <= 1.0 witness 0.0

  datatype Polarity = Positive | Negative | Neutral

  /** Above 0.5 is positive, below 0.3 negative, the rest neutral. */
  function Classify(s: Score): (p: Polarity)
    ensures p == Positive <==> s > 0.5
    ensures p == Negative <==> s < 0.3
    ensures p == Neutral <==> 0.3 <= s <= 0.5
  {
    if s > 0.5 then Positive else if s < 0.3 then Negative else Neutral
  }

  /** Boundary `i` of the windows that start at `lo`; windows are 30 minutes
      (`freq='30min'`) wide. */
  function BoundaryAt(lo: int, i: int): int
  {
    lo + i * 1800
  }

  /** `pd.date_range(start=lo, end=hi, freq='30min')`: every half hour from
      `lo` up to and including `hi`. */
  function Boundaries(lo: int, hi: int): (b: seq<int>)
    requires lo <= hi
    ensures |b| > 0 && b[0] == lo
    ensures forall i :: 0 < i < |b| ==> b[i] == b[i - 1] + 1800
    ensures b[|b| - 1] <= hi < b[|b| - 1] + 1800
  {
    var n := (hi - lo) / 1800 + 1;
    seq(n, i => BoundaryAt(lo, i))
  }

  /** Rows with `a <= time < b` whose message scores as polarity `p`. */
  function Classified(es: seq<Event>, score: string -> Score, a: int, b: int, p: Polarity): (r: nat)
    ensures r <= InWindow(es, a, b)
  {
    if |es| == 0 then 0
    else
      var e := es[|es| - 1];
      Classified(es[..|es| - 1], score, a, b, p) + (if a <= e.time < b && Classify(score(e.message)) == p then 1 else 0)
  }

  /** Rows with `a <= time < b`. */
  function InWindow(es: seq<Event>, a: int, b: int): nat
  {
    if |es| == 0 then 0
    else InWindow(es[..|es| - 1], a, b) + (if a <= es[|es| - 1].time < b then 1 else 0)
  }

  /** Rows with `time < t`. */
  function Before(es: seq<Event>, t: int): nat
  {
    if |es| == 0 then 0
    else Before(es[..|es| - 1], t) + (if es[|es| - 1].time < t then 1 else 0)
  }

  /** Every row of a window is counted under exactly one polarity. */
  lemma {:induction false} ClassesPartition(es: seq<Event>, score: string -> Score, a: int, b: int)
    ensures Classified(es, score, a, b, Positive) + Classified(es, score, a, b, Negative)
      + Classified(es, score, a, b, Neutral) == InWindow(es, a, b)
  {
    if |es| > 0 {
      ClassesPartition(es[..|es| - 1], score, a, b);
    }
  }

  /** A window holds the rows before its end that are not before its start. */
  lemma {:induction false} InWindowBefore(es: seq<Event>, a: int, b: int)
    requires a <= b
    ensures InWindow(es, a, b) == Before(es, b) - Before(es, a)
    ensures Before(es, a) <= Before(es, b)
  {
    if |es| > 0 {
      InWindowBefore(es[..|es| - 1], a, b);
    }
  }

  /** Adjacent windows add up. */
  lemma InWindowSplit(es: seq<Event>, a: int, b: int, c: int)
    requires a <= b <= c
    ensures InWindow(es, a, b) + InWindow(es, b, c) == InWindow(es, a, c)
  {
    InWindowBefore(es, a, b);
    InWindowBefore(es, b, c);
    InWindowBefore(es, a, c);
  }

  lemma {:induction false} BeforeNone(es: seq<Event>, t: int)
    requires forall i :: 0 <= i < |es| ==> t <= es[i].time
    ensures Before(es, t) == 0
  {
    if |es| > 0 {
      BeforeNone(es[..|es| - 1], t);
    }
  }

  /** The counts of polarity `p` in the first `m` windows from `lo`. */
  function WindowCounts(es: seq<Event>, score: string -> Score, lo: int, m: nat, p: Polarity): (r: seq<nat>)
    ensures |r| == m
    ensures forall i :: 0 <= i < m ==>
      r[i] == Classified(es, score, BoundaryAt(lo, i), BoundaryAt(lo, i + 1), p)
  {
    if m == 0 then []
    else
      WindowCounts(es, score, lo, m - 1, p) + [Classified(es, score, BoundaryAt(lo, m - 1), BoundaryAt(lo, m), p)]
  }

  /** Over the first `m` windows the three series together count exactly the
      rows from `lo` to the end of the last window. */
  lemma {:induction false} WindowCountsTotal(es: seq<Event>, score: string -> Score, lo: int, m: nat)
    ensures Sum(WindowCounts(es, score, lo, m, Positive)) + Sum(WindowCounts(es, score, lo, m, Negative))
      + Sum(WindowCounts(es, score, lo, m, Neutral)) == InWindow(es, lo, BoundaryAt(lo, m))
  {
    if m == 0 {
      InWindowBefore(es, lo, lo);
    } else {
      var a := BoundaryAt(lo, m - 1);
      var b := BoundaryAt(lo, m);
      assert WindowCounts(es, score, lo, m, Positive)[..m - 1] == WindowCounts(es, score, lo, m - 1, Positive);
      assert WindowCounts(es, score, lo, m, Negative)[..m - 1] == WindowCounts(es, score, lo, m - 1, Negative);
      assert WindowCounts(es, score, lo, m, Neutral)[..m - 1] == WindowCounts(es, score, lo, m - 1, Neutral);
      WindowCountsTotal(es, score, lo, m - 1);
      ClassesPartition(es, score, a, b);
      InWindowSplit(es, lo, a, b);
    }
  }

  /** The sentiment chart: the window boundaries (`时间段`, one more than the
      windows) and one count per window for each polarity. */
  datatype SentimentChart = SentimentChart(labels: seq<int>, positive: seq<nat>, negative: seq<nat>, neutral: seq<nat>)

  /** `positive_negative_neutral_barrage_by_time`. Every row of the log is
      scored, whatever its action. An empty log has no earliest time, and
      pandas refuses to build the range: the result is then None. */
  function SentimentByTime(es: seq<Event>, score: string -> Score): (r: Option<SentimentChart>)
    ensures r.None? <==> |es| == 0
    ensures r.Some? ==> (|r.value.labels| == |r.value.positive| + 1
      && |r.value.positive| == |r.value.negative| == |r.value.neutral|)
    ensures r.Some? ==> var b := r.value.labels;
      && b[0] == MinTime(es)
      && (forall i :: 0 < i < |b| ==> b[i] == b[i - 1] + 1800)
      && b[|b| - 1] <= MaxTime(es) < b[|b| - 1] + 1800
    ensures r.Some? ==> var c := r.value;
      forall i :: 0 <= i < |c.positive| ==>
        && c.positive[i] == Classified(es, score, c.labels[i], c.labels[i + 1], Positive)
        && c.negative[i] == Classified(es, score, c.labels[i], c.labels[i + 1], Negative)
        && c.neutral[i] == Classified(es, score, c.labels[i], c.labels[i + 1], Neutral)
  {
    if |es| == 0 then None
    else
      var lo := MinTime(es);
      var b := Boundaries(lo, MaxTime(es));
      var m := |b| - 1;
      Some(SentimentChart(b, WindowCounts(es, score, lo, m, Positive),
        WindowCounts(es, score, lo, m, Negative), WindowCounts(es, score, lo, m, Neutral)))
  }

  /** Rows at or after the last boundary are never counted: the three series
      together count exactly the rows before it. */
  lemma SentimentTotal(es: seq<Event>, score: string -> Score)
    requires |es| > 0
    ensures var c := SentimentByTime(es, score).value;
      Sum(c.positive) + Sum(c.negative) + Sum(c.neutral) == Before(es, c.labels[|c.labels| - 1])
  {
    var c := SentimentByTime(es, score).value;
    var lo := MinTime(es);
    var m := |c.positive|;
    assert c.labels[m] == BoundaryAt(lo, m);
    WindowCountsTotal(es, score, lo, m);
    InWindowBefore(es, lo, BoundaryAt(lo, m));
    BeforeNone(es, lo);
  }
}
